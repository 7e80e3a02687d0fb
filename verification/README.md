# Verified models of the algorithmic cores

Dafny models of the parts of this repository that carry real algorithms, and proofs of what they are
for. Run `dafny verify dfyconfig.toml` to check everything.

- **Minix-style files** (`Blocks`, `ZoneTree`, `Devices`, `InodeMap`, `Truncation`, `FileDev`, `FsRuns`,
  `CreateRace`): the zone
  bitmap, the three-level zone map with allocation on demand, truncate, and byte I/O. A device owns its
  zones; a ghost map says which place of which inode's tree holds each allocated zone, so no zone is
  lost or owned twice. Files are byte sequences with holes. Blocks may become unreadable, and buffers
  be held by others, at any time.
- **Buffer cache** (`BufferCache`): hash chains and the circular free list over heap objects. Every
  sleep is any number of atomic steps of other tasks that keep the invariant; the kernel does not
  preempt between sleeps. The other tasks take any finite number of such steps, which is an input; every run
  that comes to an end has one. A ghost map holds the last value written to each block.
- **AES and CBC** (`Gf`, `AesTables`, `Fips197`, `AesKeys`, `AesInvMix`, `AesCore`,
  `AesInBytes`, `CbcSpec`, `Cbc128`):
  the table-driven rounds, the three key-expansion loops and the in-place decryption schedule against
  FIPS 197, in the table build and the AES_ASM build; CBC with its word, byte, in-place and tail paths.
  The tables are defined from any pair of functions S and Si that invert each other.
- **Scheduler, pids, sleep queues, timers** (`SchedSpec`, `Fairness`, `Sched`, `SleepQueue`, `Timers`).
- **execve strings** (`ExecSpec`, `Exec`), **intrusive lists** (`ListHead`), **pipe and ring buffer**
  (`Circular`, `Pipe`, `PipeSleep`, `RingBuffer`), **base64** (`Base64`).

Specifications are pure functions and predicates; code that changes state in place is a method over
objects and arrays whose contract ties the new state to them. What the specification functions mean is
proved over words, bytes and fields, without their help (the lemmas named `*InWords`, `*InBytes`, `*InFields`
and the published examples). Where the code does not do what is expected
of it, the models follow the code, with a concrete case and the exact condition:

- `add_timer` does not take the inserted rest from the next timer, so timers behind the new one fire late
  (`Timers.InsertDue`, `Timers.OthersKeptIff`, `Timers.SameTickIsLate`).
- `truncate` loses the zones under an index block it cannot read, and those whose buffers others refer to
  (`FsRuns.TruncateFreesAllIff`, `FsRuns.TruncateCanLose`).
- `file_read` takes an unreadable index block for a hole: it reports success and hands out zeros for data
  that exists (`FsRuns.ReadIsExactIff`, `FsRuns.ReadCanMissBytes`).
- Two tasks that fill the same hole lose a zone (`CreateRace.CreatesLoseNothingIff`, `CreateRace.RaceLoses`).
- `base64_encode` shifts signed characters (`Base64.EncodesIff`, `Base64.HighBytesGoWrong`).
- `copy_strings` cannot see that strings do not fit (`Exec.BuildStack`,
  `Exec.LongArgumentLeavesArea`).
- `list_cut_position` on an empty list leaves the receiving head untouched (`ListHead.CutPosition`,
  `ListHead.EmptyCutLeavesReceiver`).

## Model

| member | source | states |
|---|---|---|
| ZoneTree.TreesPartitionZones | linux-0.11/fs/bitmap.c:47-105 | In a consistent forest the allocated zones are exactly the lost ones and those named in some tree, every named zone is in the data area, and no zone is named twice, in one tree or in two |
| ZoneTree.LeafPathInjective | linux-0.11/fs/inode.c:81-130 | Two logical blocks share a slot of the zone tree only if they are the same block: direct, indirect and double-indirect ranges do not overlap |
| ZoneTree.LinkRoot | linux-0.11/fs/inode.c:82-96 | Putting a fresh zero-filled zone in i_zone[i] fills exactly that place of the tree; every other place, above or below, keeps its zone |
| ZoneTree.LinkEntry | linux-0.11/fs/inode.c:100-136 | The same for an entry of an index block |
| ZoneTree.RootLinked | linux-0.11/fs/inode.c:82-113 | Linking a free zone under i_zone keeps the whole forest consistent and grows only this inode's tree, by this place |
| ZoneTree.EntryLinked | linux-0.11/fs/inode.c:101-135 | Linking a free zone in an index block keeps the whole forest consistent and grows only this inode's tree, by this place |
| Devices.Device.FindFirstZero | linux-0.11/fs/bitmap.c:31-45 | The first clear bit of a bitmap block, 8192 when there is none (the inline assembly, as a loop) |
| Devices.Device.NewBlock | linux-0.11/fs/bitmap.c:75-105 | First fit over the zone map: the lowest free zone becomes allocated and zero-filled and nothing else changes; the panic on a buffer of it that somebody refers to cannot happen; 0 exactly when no data zone is free, then no data zone's bit changes, and the map is as it was if and only if it had no clear bit behind the last zone either |
| Devices.Device.FreeBlock | linux-0.11/fs/bitmap.c:47-73 | Clears the bit of an allocated zone and no other, or does nothing when somebody else refers to its buffer; the panic on a bit that is already clear is a precondition every caller is shown to meet |
| Devices.Device.constructor | linux-0.11/fs/super.c:140-164 | Mounting any map: its first bit is set, the device is consistent, and the zones in use are those no inode in core names |
| Devices.Device.Load | linux-0.11/fs/inode.c:244-311 | An inode comes in core with the tree it has on the disk: its zones, each at one place and named by nobody else, are now its own, and the forest stays consistent |
| InodeMap.BmapOrCreate | linux-0.11/fs/inode.c:72-148 | bmap and create_block: block b < 7 is i_zone[b]; the next 512 are the entries of the block in i_zone[7]; the rest are entry (b - 519) % 512 of the block named by entry (b - 519) / 512 of the block in i_zone[8]; 0 below an index block that cannot be read; with create a hole is filled unless the device is full; every other place of every tree keeps its zone, the forest stays consistent, and index zones taken before a failure stay in this inode's tree |
| InodeMap.BmapIndirect | linux-0.11/fs/inode.c:90-108 | The single-indirect branch of the same |
| InodeMap.BmapDouble | linux-0.11/fs/inode.c:109-127 | The upper level of the double-indirect branch |
| InodeMap.BmapInner | linux-0.11/fs/inode.c:128-137 | The lower level of the double-indirect branch |
| InodeMap.FillEntry | linux-0.11/fs/inode.c:101-105 | A hole in an index block gets a new zone or the device is full; everything else of the forest stays |
| CreateRace.StepKeepsInv | linux-0.11/fs/inode.c:82-105 | When several tasks fill holes at once and sleep inside new_block, every zone in use is linked at one place, in the hands of one call, or overwritten, after every step, whether a zone is found or not |
| CreateRace.CreatesLoseNothingIff | linux-0.11/fs/inode.c:82-105 | In every interleaving of such calls, once all have returned, no zone has been lost if and only if no call began on a hole that another call was already filling |
| CreateRace.RaceLoses | linux-0.11/fs/inode.c:82-87 | A concrete interleaving of two writers of one hole that loses the first one's zone |
| Truncation.FreeInd | linux-0.11/fs/truncate.c:11-27 | Frees an indirect block and every zone it names, each once, but for those whose buffers others refer to; only the block itself when it cannot be read |
| Truncation.FreeDind | linux-0.11/fs/truncate.c:29-45 | Frees a double-indirect block and everything visible under it, each zone once, but for those whose buffers others refer to |
| Truncation.Truncate | linux-0.11/fs/truncate.c:47-64 | Frees exactly the zones of this inode that can be seen and whose buffers nobody else refers to, each once, leaves an empty tree of size 0 and keeps every other tree; the other zones of the tree are the ones that become lost; other file types are untouched |
| Truncation.PartsOfTree | linux-0.11/fs/truncate.c:53-60 | What the three parts of truncate free is, together, every visible zone of the tree, and the parts share none |
| Truncation.TreeCut | linux-0.11/fs/truncate.c:47-64 | With the tree cut off and the zones that could be freed given back the forest is consistent, the rest of the tree's zones are lost, and the other trees are as they were |
| FileDev.FileRead | linux-0.11/fs/file_dev.c:17-46 | Returns the longest run of bytes from the file position that does not hit an unreadable data block, each byte as the zone tree gives it, holes as 0 and bytes below an unreadable index block as 0, whatever mix of levels it crosses; -ERROR when that run is empty; the position advances by it |
| FileDev.ByteInWords | linux-0.11/fs/inode.c:81-137 | Which byte of which disk block is byte x of a file, written out for the three ranges |
| Blocks.ShortInBytes | linux-0.11/fs/inode.c:97-107 | The entries of an index block are stored low byte first |
| FileDev.FileWrite | linux-0.11/fs/file_dev.c:48-90 | Stores a prefix of the buffer at the position, or at the size with O_APPEND: exactly those bytes of this file change and no byte of any other; the size becomes the larger of the old one and the end of the write; the position moves only without O_APPEND; a short write means the device is full or a block cannot be read |
| FileDev.WriteChunk | linux-0.11/fs/file_dev.c:64-83 | One pass of the write loop does that for the part of the buffer that falls in one block |
| FileDev.GrowingIsInvisible | linux-0.11/fs/inode.c:145-148 | Filling holes with fresh zones changes no byte of any file |
| FileDev.LeafWritten | linux-0.11/fs/file_dev.c:69-82 | Writing to the data zone of one logical block changes that block of that file and nothing else: no other place of any tree names the zone |
| FileDev.ChunkStored | linux-0.11/fs/file_dev.c:69-82 | A chunk copied into a data block is stored at its file offset, and every other byte of every file is as before |
| FileDev.BlockRead | linux-0.11/fs/file_dev.c:25-42 | Bytes taken from a data block, or zeros when bmap gives 0, are what a reader sees at that offset |
| FsRuns.TruncateFreesAllIff | linux-0.11/fs/truncate.c:11-45 | truncate gives back every zone of the tree if and only if no index block of the tree that names further zones is unreadable and nobody else refers to a buffer of the tree |
| FsRuns.TruncateCanLose | linux-0.11/fs/truncate.c:19-26 | A concrete tree of zones 5 and 6: with zone 5 unreadable, or zone 6 referred to by somebody else, truncate frees only zone 5 |
| FsRuns.ReadsBackWhatWasStored | linux-0.11/fs/file_dev.c:17-90 | Bytes written are the bytes read back if and only if none of them but zeros lies below an index block that is unreadable by then |
| FsRuns.ReadIsExactIff | linux-0.11/fs/file_dev.c:17-46 | What file_read hands out is the file's bytes if and only if every byte of the range that lies below an unreadable index block is zero |
| FsRuns.ReadExactly | linux-0.11/fs/file_dev.c:17-46 | The same for a call of file_read; in particular it is exact whenever no index block above the range is unreadable |
| FsRuns.ReadCanMissBytes | linux-0.11/fs/file_dev.c:25-42 | A concrete tree with an unreadable index block from which a successful read hands out 0 for a byte that is 7 |
| FsRuns.StoringKeepsTail | linux-0.11/fs/file_dev.c:74-78 | Writing keeps every byte at or past the size zero |
| FsRuns.EmptyTreeIsZero | linux-0.11/fs/truncate.c:53-61 | After truncate every bmap is 0 and every byte reads as 0 |
| FsRuns.Run | linux-0.11/fs/file_dev.c:17-90 | In every run, from mounting any map, of opening new files, create_block, reads, writes, truncates, blocks turning unreadable and buffers being held: the allocated zones stay partitioned among the trees and the rest, bytes past the size read as 0, the files are what the writes and truncates make of byte sequences, and while all blocks can be read and nobody else refers to their buffers no zone is lost, every read hands out all the bytes the file then has, and every write stores all its data unless the device is full |
| FsRuns.RunFrom | linux-0.11/fs/file_dev.c:17-90 | The same from any consistent device and any inodes in core |
| FsRuns.Step | linux-0.11/fs/file_dev.c:17-90 | One operation does to the files what it does to byte sequences, and keeps the partition and the zero tails; what it answers is in the files as they were |
| FsRuns.NothingHidden | linux-0.11/fs/truncate.c:47-64 | With every block readable truncate sees its whole tree |
| BufferCache.Cache.constructor | linux-0.11/fs/buffer.c:348-381 | n empty buffers on one circular free list, empty hash chains, nothing cached |
| BufferCache.Cache.MakeRing | linux-0.11/fs/buffer.c:358-378 | The initialising loop and the two assignments after it close one doubly linked circle over all buffers |
| BufferCache.Cache.RemoveFromHash | linux-0.11/fs/buffer.c:133-139 | The buffer leaves exactly its own hash chain, which stays linked both ways; a buffer without a device leaves none |
| BufferCache.Cache.RemoveFromFree | linux-0.11/fs/buffer.c:141-146 | The circle closes over the remaining buffers in their order, and free_list moves on when it pointed at the one removed |
| BufferCache.Cache.InsertIntoFree | linux-0.11/fs/buffer.c:152-155 | The buffer becomes the last of the circle |
| BufferCache.Cache.InsertIntoHash | linux-0.11/fs/buffer.c:157-163 | The buffer becomes the first of the chain of its (device, block), or of none without a device |
| BufferCache.Cache.Requeue | linux-0.11/fs/buffer.c:246-249 | Removing, renaming and inserting keeps the free list one permutation of all buffers and every buffer in exactly its own bucket |
| BufferCache.Cache.FindBuffer | linux-0.11/fs/buffer.c:166-174 | The one buffer of (dev, block), NULL exactly when none has that identity |
| BufferCache.HashExamples | linux-0.11/fs/buffer.c:128 | Buckets are (dev xor block) modulo 307, at five concrete identities |
| BufferCache.Cache.GetHashTable | linux-0.11/fs/buffer.c:183-196 | With any steps of other tasks while it waits: NULL exactly when the block is not cached, otherwise the unique buffer of (dev, block), unlocked and with one more reference of ours; its retry is never needed |
| BufferCache.Cache.PickVictim | linux-0.11/fs/buffer.c:213-223 | The first of the least bad unreferenced buffers in free-list order, clean before dirty and unlocked before locked; the first clean and unlocked one when there is one; NULL exactly when all are referenced |
| BufferCache.Cache.BadnessIs | linux-0.11/fs/buffer.c:205 | A dirty buffer is worse than a clean one, and among those alike a locked one is worse than an unlocked one |
| BufferCache.Cache.Clean | linux-0.11/fs/buffer.c:231-236 | The victim ends clean, unlocked and unreferenced, or somebody has referenced it meanwhile; a clean one is left alone; it ends when the other tasks stop moving, one pass being enough while they do |
| BufferCache.Cache.Claim | linux-0.11/fs/buffer.c:239-250 | Gives the victim the new identity, and refuses exactly when that identity has appeared meanwhile; so no identity ever has two buffers |
| BufferCache.Cache.Recycle | linux-0.11/fs/buffer.c:243-249 | A buffer changes identity only with count 0, clean and unlocked, and the cache stays valid |
| BufferCache.Cache.Replace | linux-0.11/fs/buffer.c:213-250 | One pass of getblk after a failed lookup, over all its sleeping points: the buffer taken is the one chosen by the scan; with an unreferenced, clean and unlocked buffer in the cache it is the first such in free-list order, without sleeping; otherwise it fails only when other tasks have moved, or sleeps for ever because every buffer is referenced and nobody moves any more |
| BufferCache.Cache.Getblk | linux-0.11/fs/buffer.c:206-251 | Returns the unique buffer of (dev, block), unlocked, with exactly one more reference of ours, whatever the other tasks do at each sleep: at once when it is cached; otherwise the first unreferenced, clean and unlocked buffer of the free list, without sleeping, when there is one; and otherwise as soon as the others let it, unless every buffer stays referenced for ever |
| BufferCache.Cache.Brelse | linux-0.11/fs/buffer.c:253-261 | Drops exactly our reference; the panic on a free buffer cannot happen |
| BufferCache.Cache.Bread | linux-0.11/fs/buffer.c:267-281 | The buffer of (dev, block) holding what was last written to that block, always when it is cached and up to date; NULL, with no reference kept, only when a read of the block failed or the device has no driver; a sleep without end only where getblk has one |
| BufferCache.Cache.FillOrRelease | linux-0.11/fs/buffer.c:273-280 | Reads the block in unless it is up to date and keeps the reference; gives it up only when the read failed or the device has no driver, never for a buffer that was up to date |
| BufferCache.Cache.WaitOnBuffer | linux-0.11/fs/buffer.c:36-42 | Returns with the buffer unlocked, after anything other tasks may do |
| BufferCache.Cache.SyncDev | linux-0.11/fs/buffer.c:59-82 | Both passes over the pool, sleeping as they go: no buffer on the device is dirty afterwards if other tasks did nothing meanwhile, and none of a block that only we write in any case; since everything we rely on is kept, its last contents are on the disk or in a queued request |
| BufferCache.Cache.LlRwBlock | linux-0.11/kernel/blk_drv/ll_rw_blk.c:88-155 | Nothing without a driver; otherwise after a write the buffer is clean, with a request queued or none needed, and after a read it is up to date or a read is queued, whatever happens while it waits for the lock and for a free request |
| BufferCache.Cache.DriverOf | linux-0.11/kernel/blk_drv/ll_rw_blk.c:149-153 | Only majors 1 to 6 can have a request function |
| BufferCache.Cache.OtherStep | linux-0.11/fs/buffer.c:36-42 | Every atomic step of another task - references, in-place changes, locks, requests and their completion, forgetting, renaming - keeps the cache valid, leaves alone the identity of what we hold and the contents of what only we write, and dirties none of the latter |
| BufferCache.Cache.Sleep | linux-0.11/kernel/sched.c:154-168 | Any number of such steps |
| BufferCache.Cache.Modify | linux-0.11/fs/file_dev.c:71-81 | Changing a referenced buffer and marking it dirty makes its contents the last written value of its block |
| BufferCache.Cache.Discard | linux-0.11/fs/bitmap.c:56-66 | free_block forgets a cached block: the disk's contents are the last written again |
| BufferCache.Cache.CleanIsOnDisk | linux-0.11/fs/buffer.c:59-82 | A block that is neither dirty nor locked in the cache is on the disk as it was last written |
| BufferCache.Cache.WriteAndSync | linux-0.11/fs/buffer.c:59-82 | Write a block, release it, sync its device, wait for its buffer: the disk holds the value written, even if the buffer has been evicted meanwhile; always when the block is cached and up to date, and otherwise unless the read fails or getblk sleeps for ever |
| BufferCache.Cache.WriteThenRead | linux-0.11/fs/buffer.c:267-281 | Write a block, release it, sync, let anything happen to the cache: reading the block again gives the value written, unless a read of it fails or getblk sleeps for ever |
| BufferCache.Cache.Do | linux-0.11/fs/buffer.c:166-281 | One call of a client - reading, looking at a held buffer, changing it, releasing it, syncing - with its effect on our references and on the last written contents, and why a read may fail; a block that we hold is always delivered |
| BufferCache.Cache.Run | linux-0.11/fs/buffer.c:59-281 | Transparency: in every sequence of such calls, with anything other tasks do in between, each look at a block that only we write shows what we wrote last, or what was there at first; each call is answered according to the references we hold, each read error is a failed read of its own, and only a sleep without end, with every buffer referenced and nobody moving any more, cuts the run short |
| Gf.InvMixColOfMixCol | openssl/aes_core.c:45-54 | InvMixColumns inverts MixColumns on every column (section 5.3.3 of FIPS 197), from the bits of the field multiplication |
| Gf.InvMixColPlus | openssl/aes_core.c:761-784 | InvMixColumns is linear over xor, which is why round keys can be transformed beforehand |
| AesTables.EncWordIs | openssl/aes_core.c:889-894 | Four Te look-ups and a key word are one column of SubBytes, ShiftRows, MixColumns and AddRoundKey |
| AesTables.DecWordIs | openssl/aes_core.c:1080-1085 | Four Td look-ups are one column of the equivalent inverse round |
| AesTables.EncLastWordIs | openssl/aes_core.c:949-954 | The masked look-ups of the last round are SubBytes, ShiftRows and AddRoundKey without MixColumns |
| AesTables.DecLastWordIs | openssl/aes_core.c:1140-1145 | The Td4 look-ups of the last round are the inverse of that |
| AesKeys.RotSubIs | openssl/aes_core.c:667-672 | The masked tables, and the byte table of the AES_ASM build, both compute SubWord of RotWord; what that is byte by byte is in AesInBytes.WordInBytes |
| AesKeys.SubIs | openssl/aes_core.c:721-726 | The same for SubWord alone |
| AesKeys.RconIs | openssl/aes_core.c:630-633 | The rcon table holds the powers of x |
| AesKeys.Expand128 | openssl/aes_core.c:664-681 | The sliding loop for 128-bit keys leaves exactly words 4 to 43 of the section 5.2 recurrence |
| AesKeys.Expand192 | openssl/aes_core.c:684-703 | For 192-bit keys, words 6 to 51 |
| AesKeys.Expand256 | openssl/aes_core.c:706-733 | For 256-bit keys, words 8 to 59 |
| AesCore.SetEncryptKey | openssl/aes_core.c:639-735 | Status codes for missing pointers and wrong sizes, and otherwise bits / 32 + 6 rounds and exactly the section 5.2 expansion of the key over 4 * (rounds + 1) words, in either build |
| AesCore.KeyScheduleUnique | openssl/aes_core.c:639-735 | A key has exactly one expansion |
| AesInBytes.WordInBytes | openssl/aes_core.c:664-733 | Each byte of an expanded word: byte r of the word nk back, xor byte r of the word before; at the head of a group, S of byte (r + 1) mod 4 of that word, and the round constant on byte 0; for 256 bits S of byte r in the middle of a group |
| AesInBytes.KeyExample | openssl/aes_core.c:639-681 | The first eight words of the key expansion example in appendix A.1 of FIPS 197 |
| AesCore.ReverseKeys | openssl/aes_core.c:754-760 | The in-place loop reverses the order of the round keys and keeps the words of each in order |
| AesInvMix.InvMixTableIs | openssl/aes_core.c:762-784 | Td of Te1 is InvMixColumns of the key word: the tables cancel the S-box |
| AesInvMix.InvMixPackedIs | openssl/aes_core.c:1337-1365 | The packed-byte doublings and rotations of the AES_ASM build compute the same word, for every word |
| AesCore.SetDecryptKey | openssl/aes_core.c:740-786 | Either build leaves the section 5.3.5 schedule: round keys reversed, InvMixColumns applied to the inner ones, of the expansion of the same key |
| AesCore.EncRound | openssl/aes_core.c:889-912 | Four encryption words make one full round |
| AesCore.DecRound | openssl/aes_core.c:1080-1103 | Four decryption words make one round of the equivalent inverse cipher |
| AesCore.EncryptRounds | openssl/aes_core.c:887-943 | The two-rounds-per-pass loop runs exactly Nr - 1 full rounds with the right round keys |
| AesCore.DecryptRounds | openssl/aes_core.c:1078-1134 | The same for the inverse rounds |
| AesCore.Encrypt | openssl/aes_core.c:792-977 | The cipher of section 5.1 of FIPS 197; in and out may overlap |
| AesCore.Decrypt | openssl/aes_core.c:983-1168 | The equivalent inverse cipher of section 5.3.5 |
| AesInBytes.StateInBytes | openssl/aes_core.c:808-811 | Byte 4c + r of a block is row r of column c |
| AesInBytes.StartInBytes | openssl/aes_core.c:808-811 | Before the rounds, byte by byte: the block xor the first four key words |
| AesInBytes.RoundInBytes | openssl/aes_core.c:887-943 | A full round byte by byte: with b0 to b3 the S-box values of the bytes that ShiftRows brings to column c, from row r down cyclically, byte (r, c) becomes 2 b0 + 3 b1 + b2 + b3 + the key byte, in the field |
| AesInBytes.LastRoundInBytes | openssl/aes_core.c:949-976 | The last round byte by byte: the S-box value that ShiftRows brings there, xor the key byte |
| AesInBytes.XtimeInBits | openssl/aes_core.c:45-54 | Doubling in the field is a shift, and xor 0x1b when the top bit was set |
| AesInBytes.MixExample | openssl/aes_core.c:45-54 | Two columns of the worked example in appendix B of FIPS 197 |
| Fips197.InvRoundsUndo | openssl/aes_core.c:983-1168 | After r inverse rounds exactly the last r rounds have been undone |
| Fips197.EqInvCipherInverts | openssl/aes_core.c:740-786 | For every key schedule and block the equivalent inverse cipher inverts the cipher |
| AesCore.EncryptThenDecrypt | openssl/aes_core.c:639-1168 | AES_decrypt under AES_set_decrypt_key restores what AES_encrypt under AES_set_encrypt_key did, for every 128, 192 or 256-bit key and every block, in both builds |
| CbcSpec.DecInvertsEnc | openssl/cbc128.c:66-205 | For any block function and its inverse, decryption inverts encryption for every length including partial last blocks, and both leave the same chaining value (section 6.2 of NIST SP 800-38A) |
| CbcSpec.EncChains | openssl/cbc128.c:66-113 | Encrypting in two calls cut at a block boundary and chained by ivec is one call |
| CbcSpec.DecChains | openssl/cbc128.c:115-205 | Decrypting in two such calls is one call |
| CbcSpec.EncInBytes | openssl/cbc128.c:100-111 | Ciphertext block k is e of the block that holds byte 16k + n of the plaintext xor byte n of the ciphertext block before (of ivec for k = 0), and that byte alone behind the end of the plaintext |
| CbcSpec.EncIvIsLast | openssl/cbc128.c:113 | Encryption leaves the last ciphertext block as the chaining value, and the old one for no data |
| CbcSpec.DecInBytes | openssl/cbc128.c:130-200 | Plaintext byte 16k + n is byte n of d of ciphertext block k xor byte n of the block before |
| CbcSpec.DecIvIsLast | openssl/cbc128.c:130-200 | Decryption leaves the last ciphertext block used as the chaining value |
| CbcSpec.FilledWithZeros | openssl/cbc128.c:101-104 | A short last block is encrypted as if zero bytes filled it up |
| Cbc128.XorBytes | openssl/cbc128.c:101-104 | Xor byte by byte, also in place: out is in xor iv, a short input leaves the rest of iv |
| Cbc128.XorWords | openssl/cbc128.c:89-91 | Xor word by word leaves the same bytes |
| Cbc128.Encrypt | openssl/cbc128.c:66-113 | Writes the CBC encryption, a short last block filled up with the bytes of the chaining value, and nothing else, and leaves the last ciphertext block in ivec; on every path, in place or not |
| Cbc128.DecApart | openssl/cbc128.c:130-151 | Out of place: decrypt into out and xor the previous ciphertext onto it, by words or by bytes |
| Cbc128.SwapBytes | openssl/cbc128.c:188-200 | In place: each ciphertext byte is saved in ivec before its place is overwritten; a tail writes only its own bytes |
| Cbc128.SwapWords | openssl/cbc128.c:175-181 | The word-wise form leaves the same bytes |
| Cbc128.Decrypt | openssl/cbc128.c:115-205 | Writes exactly the CBC decryption to len bytes and leaves the last ciphertext block in ivec; in place and out of place, by words, by bytes or as a tail, the result is the same |
| Cbc128.EncryptThenDecrypt | openssl/cbc128.c:66-205 | Encrypting to a buffer and decrypting it, in place or elsewhere, returns the plaintext for every length |
| Cbc128.EncryptTwice | openssl/cbc128.c:66-113 | Two calls with the same ivec, the first on whole blocks, write the same bytes and the same ivec as one call |
| Cbc128.DecryptTwice | openssl/cbc128.c:115-205 | The same for decryption, in place or not |
| SchedSpec.ScheduleIsDetermined | linux-0.11/kernel/sched.c:107-145 | A task table and a time have exactly one scheduling outcome: highest counter, highest slot on ties, task 0 if nobody is runnable |
| SchedSpec.ScheduleHappens | linux-0.11/kernel/sched.c:125-145 | With positive priorities schedule always has an outcome, after at most one recharge, and keeps every counter within 2 * priority - 1 |
| SchedSpec.RechargedOnce | linux-0.11/kernel/sched.c:139-142 | After one recharge every runnable task has time left and the bound on the counters holds again |
| SchedSpec.RechargeIsUselessIff | linux-0.11/kernel/sched.c:127-143 | With priorities of 0 the search would repeat for ever exactly when every runnable task has priority 0 |
| SchedSpec.BestIsUnique | linux-0.11/kernel/sched.c:132-137 | There is one best task |
| SchedSpec.CheckedInFields | linux-0.11/kernel/sched.c:114-123 | Field by field for every slot: the alarm is cleared and bit 13 of the signals set exactly when 0 != alarm < now; the task runs afterwards if and only if it did or was interruptible with a signal that gets through; counter, priority and blocked stay; slot 0 stays |
| SchedSpec.DeliverableInBits | linux-0.11/kernel/sched.c:120 | A signal gets through if and only if it is SIGKILL, SIGSTOP or one that is not blocked |
| SchedSpec.RechargedInFields | linux-0.11/kernel/sched.c:139-142 | Every task but task 0, asleep or not, has half its counter, rounded down, plus its priority |
| SchedSpec.ScheduleInFields | linux-0.11/kernel/sched.c:125-145 | What is chosen, in fields: no runnable task has more time, and none at a higher slot as much; nobody is recharged while a runnable task has time left, everybody when none has any |
| Sched.Kernel.CheckAlarms | linux-0.11/kernel/sched.c:114-123 | Expired alarms raise SIGALRM and interruptible tasks with an unblocked signal become runnable, in every slot but 0, and nothing else changes |
| Sched.Kernel.FindNext | linux-0.11/kernel/sched.c:128-137 | The scan finds the best task; -1 and task 0 when nobody is runnable |
| Sched.Kernel.RechargeAll | linux-0.11/kernel/sched.c:139-142 | Every task but task 0 gets half its counter plus its priority |
| Sched.Kernel.Schedule | linux-0.11/kernel/sched.c:107-145 | schedule() makes current the task the specification determines, recharging at most once |
| Sched.Kernel.ChargeTick | linux-0.11/kernel/sched.c:335-338 | One timer tick is one step of the scheduling state machine: the current task pays one tick; in kernel mode, or with time left, that is all, and otherwise schedule() runs on the table so charged |
| Fairness.ChargedInFields | linux-0.11/kernel/sched.c:335-336 | A tick takes one from the counter of the current task, not below 0, and changes nothing else |
| Fairness.TickLowers | linux-0.11/kernel/sched.c:335-338 | A user-mode tick that leaves a runnable task waiting lowers its patience, through schedule and through a recharge |
| Fairness.NothingRaises | linux-0.11/kernel/sched.c:107-145 | No other event raises it |
| Fairness.PatienceBound | linux-0.11/kernel/sched.c:139-142 | Patience is at most one more than twice the sum of 2 * priority - 1 over the other tasks |
| Fairness.Served | linux-0.11/kernel/sched.c:107-145 | In every run a task that stays runnable gets the processor before the user-mode ticks exceed its patience |
| Fairness.StepKeepsInv | linux-0.11/kernel/sched.c:335-338 | Every event keeps the table sound |
| Sched.Kernel.FindEmptyProcess | linux-0.11/kernel/fork.c:135-147 | Terminates by pigeonhole across the wrap of last_pid: the next pid in cyclic order that no task has, after at most 65 tries, and the first free slot after 0, or -EAGAIN with the pid already spent |
| Sched.Kernel.Fork | linux-0.11/kernel/fork.c:68-133 | A new task with a fresh pid in the first free slot, its priority, counter and signals as copy_process sets them; -EAGAIN leaves the table as it was |
| Sched.Kernel.Release | linux-0.11/kernel/exit.c:19-33 | Empties exactly the slot of the task and reschedules |
| Sched.Kernel.Run | linux-0.11/kernel/fork.c:80-83 | In every run of forks, releases, ticks and reschedulings the pids in the table stay pairwise distinct |
| SleepQueue.EnterKeeps | linux-0.11/kernel/sched.c:162-164 | Going to sleep puts the task on top of its queue's chain and moves nobody else |
| SleepQueue.PopKeeps | linux-0.11/kernel/sched.c:191-197 | Waking the top of a chain hangs the rest of the chain from it |
| SleepQueue.StepKeeps | linux-0.11/kernel/sched.c:154-197 | Every step of sleep_on and wake_up keeps every sleeper in exactly one place of one chain |
| SleepQueue.NoWaiterIsLost | linux-0.11/kernel/sched.c:154-197 | In every reachable state every sleeper is reached by saved tmp pointers from a queue head or from a woken task that has not resumed |
| SleepQueue.StepProgress | linux-0.11/kernel/sched.c:166-167 | Each wake-up of the top of a sleeper's chain brings it one nearer, or wakes it; nothing else moves a sleeper that hangs from a woken task |
| SleepQueue.ChainDrains | linux-0.11/kernel/sched.c:154-197 | Whatever runs in between, such a sleeper with k ahead of it is awake once the top of its chain has been woken k + 1 times, and not before |
| SleepQueue.WakeUpStarts | linux-0.11/kernel/sched.c:191-197 | wake_up on a sleeper's queue wakes it if it slept last, and otherwise hangs it from the task that did, one place nearer |
| SleepQueue.OneWakeUpWakesAll | linux-0.11/kernel/sched.c:191-197 | One wake_up followed by the resumptions empties the queue and takes exactly its chain of sleepers out of sleep_on, each step enabled in its turn |
| SleepQueue.WakingCanResume | linux-0.11/kernel/sched.c:166-167 | A woken task can always take its next step |
| SleepQueue.WaitQueues.SleepOn | linux-0.11/kernel/sched.c:154-165 | sleep_on up to schedule: the task sleeps on top of the queue; a null queue does nothing |
| SleepQueue.WaitQueues.SleepOnReturns | linux-0.11/kernel/sched.c:166-168 | sleep_on after schedule: the task that slept before is woken |
| SleepQueue.WaitQueues.WakeUp | linux-0.11/kernel/sched.c:191-197 | The task on top of the queue is made runnable and takes the rest of the chain with it; an empty or null queue does nothing |
| Timers.InsertIs | linux-0.11/kernel/sched.c:290-303 | The insertion loop puts the new timer after exactly the timers due before it, with what is left of its delay, at least 1; every other entry is untouched |
| Timers.InsertDue | linux-0.11/kernel/sched.c:294-303 | The new timer is due when asked; timers before it keep their tick; those behind it move by exactly the inserted rest, which is never taken from the successor |
| Timers.OthersKeptIff | linux-0.11/kernel/sched.c:294-303 | Adding a timer leaves all queued timers on time if and only if all of them are due before it |
| Timers.SameTickIsLate | linux-0.11/kernel/sched.c:294-303 | Two timers for one tick: the older becomes due only at twice the time |
| Timers.TickDue | linux-0.11/kernel/sched.c:322-332 | A tick brings every timer nearer by one and fires exactly the one that was due on it, so at most one |
| Timers.FiresWhenDue | linux-0.11/kernel/sched.c:275-332 | In every run of ticks and additions a timer fires on exactly the tick it was due plus the delays put ahead of it meanwhile, or not at all if the run is shorter |
| Timers.TimerList.AddTimer | linux-0.11/kernel/sched.c:275-306 | On 64 linked slots: a routine due at once is called, otherwise the list becomes the specified insertion; false exactly where the source panics for want of a slot |
| Timers.SinkLoop | linux-0.11/kernel/sched.c:294-303 | Exchanging contents of neighbouring slots performs the insertion and leaves the next pointers alone |
| Timers.TimerList.Tick | linux-0.11/kernel/sched.c:322-332 | The timer part of do_timer performs the specified tick, frees the slot of a fired timer, and lets its routine add timers: those are inserted or called as add_timer specifies, and none of them fires on this tick; false exactly where add_timer panics |
| Timers.TimerList.AddAll | linux-0.11/kernel/sched.c:275-306 | The timers that one routine adds, one after the other, up to the one that is too many |
| Timers.AddedInTotal | linux-0.11/kernel/sched.c:275-289 | How many of those are queued and how many called at once, and that they fail exactly when more than 64 would be queued |
| Exec.ArgPages.StoreByte | linux-0.11/fs/exec.c:133-146 | The cached offset and page always agree with flat addressing of p; one byte changes, pages appear on demand as zeros |
| Exec.ArgPages.CopyString | linux-0.11/fs/exec.c:120-147 | One string with its terminator is put right below p; out of pages only when more were missing than free; it leaves the area only when the string does not fit |
| Exec.ArgPages.CopyStrings | linux-0.11/fs/exec.c:104-152 | The strings end up in order right below p and nothing else changes; 0 only when the pages run out or no byte is left; it leaves the area at the bottom only when they do not fit, which the source's guard does not prevent |
| Exec.ArgPages.MapPages | linux-0.11/fs/exec.c:171-175 | The argument pages become the top of the data segment, and everything below stays |
| Exec.CreateTables | linux-0.11/fs/exec.c:46-70 | The stack holds argc, the two table addresses and the two tables, and every byte outside these words is untouched, the strings among them |
| ExecSpec.StackWords | linux-0.11/fs/exec.c:46-70 | argc, the address of the argument table right behind these three words, that of the environment table behind it |
| ExecSpec.LongInBytes | linux-0.11/fs/exec.c:55-68 | Words are stored low byte first |
| Exec.PutPointers | linux-0.11/fs/exec.c:59-68 | One table: an address for each string and a null pointer |
| ExecSpec.StackReads | linux-0.11/fs/exec.c:46-70 | A program that follows the tables on such a stack reads exactly the argument and the environment strings, all of them and in order |
| ExecSpec.TableReads | linux-0.11/fs/exec.c:59-63 | Reading a table up to its null pointer gives the strings |
| Exec.BuildStack | linux-0.11/fs/exec.c:310-334 | copy_strings for environment and arguments, then create_tables: the new program reads back exactly what execve was given; with enough pages the source leaves the area if and only if the strings do not fit in 128 kB less 4 bytes, and it never succeeds on strings that do not fit |
| Exec.LongArgumentLeavesArea | linux-0.11/fs/exec.c:120-147 | One argument of 128 kB for which copy_strings leaves the area |
| ListHead.AddBetween | shell/list.h:49-57 | A node put between two neighbours of a ring, next and prev inverse everywhere |
| ListHead.EndsOf | shell/list.h:20-55 | What a list is, in pointers: next leads from the head through the entries in order and back, prev the other way |
| ListHead.Add | shell/list.h:72-75 | The node becomes the first entry |
| ListHead.AddTail | shell/list.h:86-89 | The node becomes the last entry |
| ListHead.Del | shell/list.h:116-121 | Exactly the entry leaves the list, with null pointers |
| ListHead.DelInit | shell/list.h:154-158 | The entry leaves the list and is an empty list itself |
| ListHead.Move | shell/list.h:165-169 | The entry leaves its list and becomes the first of the other, or of the same one |
| ListHead.MoveTail | shell/list.h:176-181 | The entry leaves its list and becomes the last of the other, or of the same one |
| ListHead.Replace | shell/list.h:134-141 | The new node takes the old one's place in its ring, also when that was alone |
| ListHead.ReplaceInit | shell/list.h:143-148 | The new node takes the old one's place in its ring, and the old one becomes an empty list |
| ListHead.IsEmpty | shell/list.h:198-201 | True exactly for the empty list |
| ListHead.IsSingular | shell/list.h:240-243 | True exactly for one entry |
| ListHead.IsLast | shell/list.h:188-192 | True exactly for the last entry |
| ListHead.RotateLeft | shell/list.h:226-234 | The first entry becomes the last |
| ListHead.RotateAll | shell/list.h:226-234 | As many rotations as entries are the identity |
| ListHead.CutPosition | shell/list.h:271-283 | The list is split after the entry, the first part moving to the other head; cutting at the head leaves that one empty; an empty list, and a list of one entry at an entry not on it, are not cut and the other head not touched |
| ListHead.EmptyCutLeavesReceiver | shell/list.h:271-283 | Cutting an empty list at its head leaves the receiving list with the entry it had |
| ListHead.Splice | shell/list.h:304-309 | The entries of one list go in front of the other's |
| ListHead.SpliceTail | shell/list.h:316-321 | The entries of one list go behind the other's |
| ListHead.SpliceInit | shell/list.h:330-337 | The entries of one list go in front of the other's, and the emptied head becomes an empty list |
| ListHead.SpliceTailInit | shell/list.h:347-354 | The entries of one list go behind the other's, and the emptied head becomes an empty list |
| ListHead.CutAndSplice | shell/list.h:271-309 | Cutting anywhere and splicing the part back restores the list |
| ListHead.ListIsOne | shell/list.h:36-40 | The pointers determine the sequence: a head has one list of entries |
| Pipe.PipeInode.ReadChunk | linux-0.11/fs/pipe.c:24-35 | Takes the oldest bytes, as many as wanted, present and up to the end of the page, and moves the tail past them |
| Pipe.PipeInode.WriteChunk | linux-0.11/fs/pipe.c:54-65 | Appends a prefix of the data, as much as fits up to the end of the page, at the head and moves it on; one byte of the page stays free |
| Pipe.PipeInode.Run | linux-0.11/fs/pipe.c:13-69 | In every interleaving of chunks what was there and what was written is what was read followed by what is in the pipe, at most 4095 bytes; a pass moves something whenever there are bytes, or there is room, for it |
| PipeSleep.StepKeeps | linux-0.11/fs/pipe.c:17-37 | Every pass of reader or writer, and closing an end, keeps the protocol invariant |
| PipeSleep.ReadPassInFields | linux-0.11/fs/pipe.c:17-38 | A pass of the reader: bytes move from the front, or the partner is woken and the reader leaves or sleeps |
| PipeSleep.WritePassInFields | linux-0.11/fs/pipe.c:45-68 | A pass of the writer, likewise |
| PipeSleep.NobodySleepsInVain | linux-0.11/fs/pipe.c:13-69 | In every run of one reader and one writer they are never both asleep, and whoever sleeps has nothing to read (or no room) with the other end open, or the other is at work |
| PipeSleep.PartnerWakes | linux-0.11/fs/pipe.c:13-69 | In every run a sleeper whose partner is at work is woken within as many steps as the partner has bytes to go, and one more |
| RingBuffer.Ring.constructor | ldd/chrdev/ringbuffer.c:56-63 | An empty ring |
| RingBuffer.Ring.Used | ldd/chrdev/ringbuffer.c:68-74 | The number of bytes between the two positions |
| RingBuffer.Ring.Idle | ldd/chrdev/ringbuffer.c:79-82 | Used and idle add up to size - 1 |
| RingBuffer.Ring.IsEmpty | ldd/chrdev/ringbuffer.c:94-97 | Empty exactly when nothing is used |
| RingBuffer.Ring.IsFilled | ldd/chrdev/ringbuffer.c:99-102 | Filled exactly when nothing is idle |
| RingBuffer.Ring.ReadChunk | ldd/chrdev/ringbuffer.c:175-184 | The oldest bytes, as many as there are and are wanted |
| RingBuffer.Ring.WriteChunk | ldd/chrdev/ringbuffer.c:243-249 | As many bytes as fit, behind the others |
| RingBuffer.Ring.Read | ldd/chrdev/ringbuffer.c:163-191 | rb_read with any chunks of other readers and writers before each of its own: the bytes are taken in order from the front of what was written, only an empty ring or a signal cuts the read short, without other readers they are one stretch, and with nobody in between the first bytes that were there; after a signal or a failed copy the answer is -ERESTARTSYS and they are gone; -EINVAL and -ENOMEM take nothing |
| RingBuffer.Ring.Run | ldd/chrdev/ringbuffer.c:169-252 | In every interleaving under the semaphore what was there and what was written is what was read followed by what is there, at most size - 1 bytes; each step moves exactly as many bytes as are asked for and are there, or fit |
| Circular.TakeFront | linux-0.11/fs/pipe.c:31-35 | Moving the start of a circular window drops exactly its front |
| Circular.PutStretch | linux-0.11/fs/pipe.c:61-65 | Filling cells behind a circular window appends exactly them |
| Base64.ShiftsAreDigits | openssl/base64.c:84-87 | Shifts and masks that bring in zeros give the four 6-bit digits of the 24-bit group (section 4 of RFC 4648) |
| Base64.LetterIs | openssl/base64.c:18-19 | The alphabet: A to Z, a to z, the digits, + and / |
| Base64.EncodingExamples | openssl/base64.c:75-104 | Test vectors of section 10 of RFC 4648 |
| Base64.GroupOfValues | openssl/base64.c:46-48 | Three decoded bytes are the 24-bit group of the four values |
| Base64.Encode | openssl/base64.c:75-104 | The encoder for every text, with char signed: it looks up the specified places of the alphabet, and fails exactly when one of them is outside |
| Base64.EncodesIff | openssl/base64.c:75-104 | The encoder produces the RFC 4648 encoding, padding included, if and only if no character of 0x80 or above stands in the second or third place of a group |
| Base64.HighBytesGoWrong | openssl/base64.c:84-87 | A text that sends the encoder outside the alphabet and one for which it emits a wrong letter |
| Base64.Decode | openssl/base64.c:20-74 | For every text: an exit with a message for refused characters and an empty last group, a look outside the buffer for the empty text and for lengths of 1 or 2 modulo 4, and the decoded groups otherwise, a missing last character counting as value 0 |
| Base64.DecodeEncoded | openssl/base64.c:20-104 | Decoding an encoding gives the text, followed by a zero byte exactly when the last group was padded |
| Base64.EncodeThenDecode | openssl/base64.c:20-104 | As zero-terminated strings the decoder inverts the encoder on every nonempty text that the encoder gets right |

## Left out

- BufferCache.Cache.Getblk: runs in which the other tasks keep it retrying for ever are not described; b_count is unbounded, where the source's unsigned char wraps at 256 references.
- BufferCache.Cache.InsertIntoHash: the store through `b_next` at linux-0.11/fs/buffer.c:163 is guarded by a null test that the source lacks.
- BufferCache.Cache.constructor: the address arithmetic of buffer_init is replaced by the number of buffers.
- BufferCache.Cache.FinishWrite: write errors of the device are not modelled; a read may fail.
- BufferCache.Cache.Run: speaks of blocks that only we write; blocks that others write too have, at each read, the contents anybody gave them last (BufferCache.Cache.Bread).
- BufferCache.Cache.HasDriver: other tasks only write to devices that have a driver; whole-block writes to a device without one, after which getblk would sync for ever, are excluded with linux-0.11/fs/block_dev.c.
- FileDev.FileWrite: file operations are atomic with respect to each other; what interleaving inside new_block does to zones is in CreateRace, and what it does to bytes is not modelled; timestamps are omitted; the dirty flag is set with the copy, not before it.
- InodeMap.BmapOrCreate: block numbers outside the map, where `_bmap` panics, are a precondition.
- Devices.Device.FreeBlock: zones outside the data area, where the source panics, are a precondition; on the path that complains the source also keeps the reference it has just taken.
- Devices.Device.NewBlock: that nobody gets hold of the buffer of a free zone is an assumption on the other tasks (Devices.Device.Hold).
- Devices.Device.constructor: reading the super block and the inode map, and the ways in which mounting fails.
- CreateRace.CreatesLoseNothingIff: the places are one fixed set; zones linked below an index zone that is itself overwritten are lost with it, which only adds losses where there is one.
- AesCore.Encrypt: the fully unrolled variant is not modelled, only the loop; the concrete S-box values are not, any inverse pair S and Si is.
- Cbc128.Encrypt: sizeof(size_t) is 8 with little-endian words, and in and out are the same buffer at the same place or different buffers.
- Fairness.Served: tasks and priorities are fixed during the run; sys_nice, fork and exit do not occur in it.
- Sched.Kernel.Fork: memory, files, descriptors and the saved registers of the new task are not modelled; a free page and a successful copy of memory are inputs.
- Sched.Kernel.ChargeTick: accounting of user and system time, the beep counter and the floppy timer are omitted; the timers are in Timers.
- SleepQueue.NoWaiterIsLost: queues used with interruptible_sleep_on are excluded, since that function clears the queue head.
- Timers.TimerList.Tick: a routine's calls of add_timer are an input; a routine that add_timer calls at once adds none itself.
- Exec.ArgPages.CopyStrings: below the area nothing is modelled; segment selection through fs is omitted.
- Exec.ArgPages.MapPages: mapping pages at the top of the data segment is a copy.
- ListHead.CutPosition: with two entries or more the entry is on the list or is the head, as the source's comment demands.
- Pipe.PipeInode.ReadChunk: a page fault while copying to or from user memory does not let another task in.
- RingBuffer.Ring.Read: the wake-ups of waiting writers are not modelled.
- Base64.Encode: what an index outside the alphabet reads is unknown; char is signed and right shifts are arithmetic.
- Base64.Decode: what a look outside the buffer finds is unknown.
- Whole-block writes in linux-0.11/fs/block_dev.c, invalidate_buffers, floppy changes, breada and bread_page.
- Path names, directories and permissions (linux-0.11/fs/namei.c), inode allocation, super blocks.
- Memory management, task switching, signals beyond those schedule() looks at, and the device drivers.
- simple-codec, the kernel-module samples, the GUI, socket, USB and shell demos, and OpenSSL headers.
