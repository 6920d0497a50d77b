# Verified models of three systems in one tree

This project models the hard parts of the systems this repository bundles, and proves what they promise.

* **Live RAM migration** (qemu 1.2.0: `arch_init.c`, `page_cache.c`, the XBZRLE codec in `savevm.c`). `Wire`, `Xbzrle`,
  `RamStream`, `RamSave`, `RamLoad` and `Migration` model the sender, its byte stream and the receiver, and prove that
  every run delivers the guest. One branch of the sender breaks this; the exact condition and a failing run are given.
* **AES** (qemu 1.2.0: `aes.c`). `AesField`, `Aes`, `AesCode` and `AesCbc` prove the table code, key schedules and CBC
  against FIPS 197 and NIST SP 800-38A; `AesVectors` ties them to an example of FIPS 197.
* **Bottom halves and bitmaps** (qemu 1.2.0: `async.c`, `bitmap.c`, `bitops.c`): `Halves`
  (what a poll does, on values), `BottomHalf` (the code), `Bits`, `Bitmap`.
* **cryptodev-linux**: `Sessions` (the session table under any number of threads), `JobQueue` (the asynchronous queue and
  its worker), `CryptoRun` (chunked against zero-copy), `Tls` and `Srtp` (record protection), `Scatter` and `ZeroCopy`
  (scatterlists over pinned user pages).
* **scull** (LDD3Examples): `Scull` (the sparse memory device) and `Pipe` (the ring buffer).

Code that works in place is modelled by classes, arrays and loops, each proved against a specification function or
state; the results about whole runs are then proved of that specification. Concurrent code is a state machine over lock
operations, and its results hold in every state any interleaving reaches. `Memory` and `Arith` hold what several modules
share.

Conventions: ciphers, hashes and the kernel's services are functions with stated laws; `kmalloc`, page pinning and
signals are choices of the surroundings. Sizes are unbounded integers: the model assumes that sums of lengths do not
exceed the machine types. Words are 64 bits and target pages 4096 bytes (`TARGET_PAGE_BITS` 12); the page size of
`ZeroCopy` and `CryptoRun` is a parameter. `dafny verify dfyconfig.toml` checks everything.


## Model

| member | source | states |
|---|---|---|
| Migration.MigrationDelivers | Virtio-serial-askisi/qemu-1.2.0/arch_init.c:343-624 | for every interleaving of guest writes, log syncs, saves and section ends after setup in which no cached page goes out as a duplicate page, with XBZRLE on or off: completion terminates, the whole stream loads, and every destination page is the initial page with the guest's writes applied in order |
| Migration.PlainMigrationDelivers | Virtio-serial-askisi/qemu-1.2.0/arch_init.c:343-407 | with XBZRLE off the same holds for every interleaving, without any condition |
| Migration.RunMemory | Virtio-serial-askisi/qemu-1.2.0/arch_init.c:343-407 | nothing but guest writes changes the memory to be migrated, and each one does |
| Migration.CacheMatchesIffDelivers | Virtio-serial-askisi/qemu-1.2.0/arch_init.c:279-330 | of a state whose clean pages are in step and whose cache holds no duplicate page: every clean continuation delivers the guest if and only if each cached page is the page the destination holds |
| Migration.MigrationSafeIff | Virtio-serial-askisi/qemu-1.2.0/arch_init.c:343-624 | exactly when XBZRLE is safe, by a guard the sender itself evaluates: from setup, every state on the way of a run delivers the guest under every clean continuation if and only if no save of the run sends a cached page as a duplicate page |
| Migration.RunCleanIffSafe | Virtio-serial-askisi/qemu-1.2.0/arch_init.c:343-407 | the same from any state in step |
| Migration.CleanIffSafe | Virtio-serial-askisi/qemu-1.2.0/arch_init.c:343-407 | one save leaves the migration safe if and only if its scan sends no cached page as a duplicate page |
| Migration.ScanMeetsDup | Virtio-serial-askisi/qemu-1.2.0/arch_init.c:354-401 | a scan that is not clean stops at the first such page, with both ends in step until then |
| Migration.ReachedNoDup | Virtio-serial-askisi/qemu-1.2.0/arch_init.c:279-330 | no state that a migration reaches, by any run, has a duplicate page in the cache |
| Migration.SavePageKeepsCacheIff | Virtio-serial-askisi/qemu-1.2.0/arch_init.c:286-386 | before the last stage the cache stays equal to the destination in the miss, unmodified, overflow and delta branches, and fails to exactly when a cached page is sent as a duplicate page |
| Migration.SavePageKeepsDirtyCache | Virtio-serial-askisi/qemu-1.2.0/arch_init.c:286-386 | in the last stage, where the cache is no longer updated, the cached copies of pages still dirty remain those of the destination |
| Migration.SavePageDelivers | Virtio-serial-askisi/qemu-1.2.0/arch_init.c:355-386 | whichever branch saves a dirty page, its record decodes at the destination to that page |
| Migration.SavePageSyncs | Virtio-serial-askisi/qemu-1.2.0/arch_init.c:355-392 | saving a page keeps the invariant that a page neither dirty nor logged is equal at the destination |
| Migration.StepInStep | Virtio-serial-askisi/qemu-1.2.0/arch_init.c:343-407 | every event of a run keeps source, stream and destination in step |
| Migration.RunInStep | Virtio-serial-askisi/qemu-1.2.0/arch_init.c:343-407 | so does every run |
| Migration.CompleteDelivers | Virtio-serial-askisi/qemu-1.2.0/arch_init.c:602-624 | completion from a state in step delivers every page |
| Migration.StreamArrives | Virtio-serial-askisi/qemu-1.2.0/arch_init.c:697-805 | loading the printed bytes does what the printed records say |
| Migration.SetupInStep | Virtio-serial-askisi/qemu-1.2.0/arch_init.c:487-533 | setup establishes the invariant |
| Migration.DupOfCachedLosesPage | Virtio-serial-askisi/qemu-1.2.0/arch_init.c:366-370 | the duplicate-page branch does leave the cache behind: from such a state a clean continuation loses the page |
| Migration.StaleCacheLosesPage | Virtio-serial-askisi/qemu-1.2.0/arch_init.c:304-306 | writing a stale cached page back and completing loses it, because it is taken for unmodified |
| Migration.CounterexampleRun | Virtio-serial-askisi/qemu-1.2.0/arch_init.c:366-386 | a concrete five-event run from setup after which completion does not deliver the guest |
| Migration.CleanWithoutXbzrle | Virtio-serial-askisi/qemu-1.2.0/arch_init.c:371-378 | without XBZRLE every run is clean |
| RamSave.SaveBlockProgress | Virtio-serial-askisi/qemu-1.2.0/arch_init.c:343-407 | ram_save_block returns -1 exactly when no page is dirty, otherwise strictly shrinks the dirty set, returns 0 only when that emptied it, and prints at most one record, for a page that was dirty |
| RamSave.ScanOutcome | Virtio-serial-askisi/qemu-1.2.0/arch_init.c:354-401 | one call meets each page at most once, in cyclic order from where the last call stopped, and clears the dirty bit of exactly the pages it passes and the one it sends |
| RamSave.PassedAll | Virtio-serial-askisi/qemu-1.2.0/arch_init.c:394-401 | once around meets every page of every block |
| RamSave.SavePageFrame | Virtio-serial-askisi/qemu-1.2.0/arch_init.c:361-392 | saving a page changes no memory, log, scan position or other dirty bit, and prints at most one record, continued exactly when it is in the last block |
| RamSave.SavePageChooses | Virtio-serial-askisi/qemu-1.2.0/arch_init.c:361-386 | a page is sent as a duplicate exactly when all its bytes are equal, as a delta exactly when it is not, is cached, has changed and the delta fits, not at all exactly when it is cached and unchanged, and otherwise whole; the count is the length of the body printed |
| RamSave.SavePageCaches | Virtio-serial-askisi/qemu-1.2.0/arch_init.c:286-325 | which page saving leaves in the cache, and in the last stage that it does so only after an overflow |
| RamSave.FirstSaveSends | Virtio-serial-askisi/qemu-1.2.0/arch_init.c:351-352 | the first call, with last_block NULL, sends the first page, so its loop ends |
| RamSave.Drain | Virtio-serial-askisi/qemu-1.2.0/arch_init.c:609-618 | the last stage terminates with nothing dirty and the memory unchanged |
| RamSave.Complete | Virtio-serial-askisi/qemu-1.2.0/arch_init.c:602-624 | so does completion, with the log merged first |
| RamSave.Setup | Virtio-serial-askisi/qemu-1.2.0/arch_init.c:487-533 | setup dirties exactly the pages of the blocks, leaves log and cache empty and prints the block list |
| RamSave.Insert | Virtio-serial-askisi/qemu-1.2.0/page_cache.c:105-162 | inserting a page caches it, keeps the pages in other buckets with their contents, and evicts what was in its own |
| RamSave.IsDupPage | Virtio-serial-askisi/qemu-1.2.0/arch_init.c:164-177 | the vector loop answers whether all bytes equal the first |
| RamSave.RamSaver.SaveXbzrlePage | Virtio-serial-askisi/qemu-1.2.0/arch_init.c:279-330 | the code of the XBZRLE branch does to cache and stream what the specification says in each case |
| RamSave.RamSaver.SavePageAt | Virtio-serial-askisi/qemu-1.2.0/arch_init.c:355-392 | the code for one dirty page refines the specification that the delivery proofs use |
| RamSave.RamSaver.SaveBlockStep | Virtio-serial-askisi/qemu-1.2.0/arch_init.c:343-407 | the do-while scan refines one round of the specification, and terminates |
| RamSave.RamSaver.constructor | Virtio-serial-askisi/qemu-1.2.0/arch_init.c:487-533 | the setup code reaches the specified initial state |
| RamSave.RamSaver.PrintBlockList | Virtio-serial-askisi/qemu-1.2.0/arch_init.c:522-530 | the printed bytes are the block list and an end marker |
| RamSave.RamSaver.SaveComplete | Virtio-serial-askisi/qemu-1.2.0/arch_init.c:602-624 | the completion loop refines the specification, and terminates |
| RamSave.RamSaver.Put | Virtio-serial-askisi/qemu-1.2.0/arch_init.c:265-275 | one record is printed as header and body |
| RamLoad.StreamRoundTrip | Virtio-serial-askisi/qemu-1.2.0/arch_init.c:697-805 | the stream is parsed back, section by section, to exactly the records printed |
| RamLoad.SectionRoundTrip | Virtio-serial-askisi/qemu-1.2.0/arch_init.c:710-799 | a section is loaded record by record up to its own end marker |
| RamLoad.ItemRoundTrip | Virtio-serial-askisi/qemu-1.2.0/arch_init.c:710-799 | one printed item is loaded as that item, and only the end marker ends the section |
| RamLoad.PageRoundTrip | Virtio-serial-askisi/qemu-1.2.0/arch_init.c:667-695 | a page record finds the page it was printed for: by name, or, when continued, in the receiver's remembered block |
| RamLoad.BlocksRoundTrip | Virtio-serial-askisi/qemu-1.2.0/arch_init.c:716-752 | the announced block list is read to its end exactly when the announced total is used up |
| RamLoad.BlocksAccepted | Virtio-serial-askisi/qemu-1.2.0/arch_init.c:716-752 | a block list is accepted only if the destination has every block announced, with the length announced |
| RamLoad.PageAccepted | Virtio-serial-askisi/qemu-1.2.0/arch_init.c:754-793 | a page record is accepted only if its block is known, its page exists, its payload is complete and a delta well-formed; it then changes that page and no other |
| RamLoad.ListBytes | Virtio-serial-askisi/qemu-1.2.0/arch_init.c:522-530 | the bytes of a block list and of an end marker, spelled out |
| RamLoad.RecordBytes | Virtio-serial-askisi/qemu-1.2.0/arch_init.c:265-330 | the bytes of a duplicate page, a delta and a whole page, spelled out |
| RamLoad.HeaderRoundTrip | Virtio-serial-askisi/qemu-1.2.0/arch_init.c:711-714 | address and flag bits of a header separate again |
| RamLoad.OrHeader | Virtio-serial-askisi/qemu-1.2.0/arch_init.c:268 | the three fields of a header use different bits, so or-ing them loses nothing |
| RamLoad.PayloadRoundTrip | Virtio-serial-askisi/qemu-1.2.0/arch_init.c:754-793 | each kind of payload is read back as it was printed |
| RamLoad.NameRoundTrip | Virtio-serial-askisi/qemu-1.2.0/arch_init.c:684-686 | a block name is read back as it was printed |
| RamLoad.FindBlock | Virtio-serial-askisi/qemu-1.2.0/arch_init.c:688-691 | the block found has the name, and none is found only if none has it |
| RamLoad.RamLoader.LoadSection | Virtio-serial-askisi/qemu-1.2.0/arch_init.c:697-805 | the load loop refines the parser the round trip is about, and rejects other versions |
| RamLoad.RamLoader.SyncBlocks | Virtio-serial-askisi/qemu-1.2.0/arch_init.c:723-750 | the block-list loop refines the parser |
| RamLoad.RamLoader.StorePage | Virtio-serial-askisi/qemu-1.2.0/arch_init.c:754-793 | storing a record refines the parser |
| Xbzrle.DeltaReproducesPageIff | Virtio-serial-askisi/qemu-1.2.0/savevm.c:2406-2553 | a delta turns the page the receiver holds into the new page exactly when the receiver agrees with the old page on every byte the delta leaves out |
| Xbzrle.UnmodifiedIffEqual | Virtio-serial-askisi/qemu-1.2.0/savevm.c:2446-2449 | the encoder reports an unmodified page exactly when the pages are equal |
| Xbzrle.OverflowIff | Virtio-serial-askisi/qemu-1.2.0/savevm.c:2417-2501 | the encoder gives up exactly when the delta does not fit, with two bytes to spare when the pages end alike |
| Xbzrle.DecodeRuns | Virtio-serial-askisi/qemu-1.2.0/savevm.c:2506-2553 | the decoder installs exactly the runs that were written |
| Xbzrle.DecodeOnlyRuns | Virtio-serial-askisi/qemu-1.2.0/savevm.c:2506-2553 | a delta is accepted only if it lists nonempty runs that fit the page, and then installs those |
| Xbzrle.RunsPatch | Virtio-serial-askisi/qemu-1.2.0/savevm.c:2417-2501 | installing the runs replaces exactly the bytes in which the pages differ |
| Xbzrle.RunRoundTrip | Virtio-serial-askisi/qemu-1.2.0/savevm.c:2456-2499 | one run is read back as it was written |
| Xbzrle.UlebRoundTrip | Virtio-serial-askisi/qemu-1.2.0/cutils.c:404-431 | a run length is read back as it was written |
| Xbzrle.ZeroByteTest | Virtio-serial-askisi/qemu-1.2.0/savevm.c:2476-2479 | the word test finds exactly the words with a zero byte |
| Xbzrle.SkipEqual | Virtio-serial-askisi/qemu-1.2.0/savevm.c:2423-2444 | the byte, word and byte loops stop at the first differing byte |
| Xbzrle.SkipEqualWords | Virtio-serial-askisi/qemu-1.2.0/savevm.c:2431-2444 | the word loop and the bytes of the word it stops at |
| Xbzrle.SkipDiff | Virtio-serial-askisi/qemu-1.2.0/savevm.c:2465-2491 | the byte and word loops stop at the first equal byte |
| Xbzrle.PutRun | Virtio-serial-askisi/qemu-1.2.0/savevm.c:2456-2499 | one run is written, or the overflow tests stop it |
| Xbzrle.EncodeBuffer | Virtio-serial-askisi/qemu-1.2.0/savevm.c:2406-2504 | the encoder loop answers 0, -1 or the length of exactly the specified delta |
| Xbzrle.DecodeBuffer | Virtio-serial-askisi/qemu-1.2.0/savevm.c:2506-2553 | the decoder loop patches the page in place as specified, or answers -1 for every malformed delta |
| AesCode.EncryptThenDecrypt | Virtio-serial-askisi/qemu-1.2.0/aes.c:731-1261 | for every 128, 192 or 256 bit key and every block the decryption code inverts the encryption code, whose output is the cipher of FIPS 197 |
| AesCode.SetEncryptKey | Virtio-serial-askisi/qemu-1.2.0/aes.c:731-826 | byte by byte the first words hold the key, and each later word is the one Nk before it xor-ed with the previous one, rotated, substituted and with the round constant where section 5.2 of FIPS 197 says so; the error codes for a missing key or schedule and a bad length |
| AesCode.KeyWords | Virtio-serial-askisi/qemu-1.2.0/aes.c:752-798 | the words taken from the key hold its bytes in order |
| AesCode.Expand128 | Virtio-serial-askisi/qemu-1.2.0/aes.c:756-775 | the rows of four words are those of the key expansion |
| AesCode.Expand192 | Virtio-serial-askisi/qemu-1.2.0/aes.c:776-796 | the rows of six words, the last one cut short, likewise |
| AesCode.Expand256 | Virtio-serial-askisi/qemu-1.2.0/aes.c:797-826 | the rows of eight words, with the extra substitution in the middle, likewise |
| AesCode.RconTable | Virtio-serial-askisi/qemu-1.2.0/aes.c:722-726 | the round constants are the powers of x in the field |
| AesCode.SetDecryptKey | Virtio-serial-askisi/qemu-1.2.0/aes.c:832-878 | the schedule is that of the equivalent inverse cipher, section 5.3.5 of FIPS 197 |
| AesCode.ReverseRoundKeys | Virtio-serial-askisi/qemu-1.2.0/aes.c:846-852 | the swap loop reverses the round keys |
| AesCode.MixRoundKeys | Virtio-serial-askisi/qemu-1.2.0/aes.c:853-876 | the inner round keys, and only those, go through the inverse mixing |
| AesCode.InvMixLookupIs | Virtio-serial-askisi/qemu-1.2.0/aes.c:856-860 | the two table lookups cancel the S-box and leave InvMixColumns |
| AesCode.Encrypt | Virtio-serial-askisi/qemu-1.2.0/aes.c:885-1070 | the rolled table rounds compute the cipher of section 5.1 of FIPS 197 |
| AesCode.Decrypt | Virtio-serial-askisi/qemu-1.2.0/aes.c:1076-1261 | the rolled table rounds compute the equivalent inverse cipher |
| AesCode.TableRoundIs | Virtio-serial-askisi/qemu-1.2.0/aes.c:982-1005 | a table round is SubBytes, ShiftRows, MixColumns and the key addition |
| AesCode.LastRoundIs | Virtio-serial-askisi/qemu-1.2.0/aes.c:1038-1069 | the masked last round is a round without MixColumns |
| AesCode.InvTableRoundIs | Virtio-serial-askisi/qemu-1.2.0/aes.c:1173-1196 | a decryption table round is a round of the equivalent inverse cipher |
| AesCode.InvLastRoundIs | Virtio-serial-askisi/qemu-1.2.0/aes.c:1229-1260 | the masked last round of decryption likewise |
| AesVectors.Schedule | Virtio-serial-askisi/qemu-1.2.0/aes.c:731-775 | the key expansion gives the round keys of the 128 bit example in appendix C.1 of FIPS 197 |
| AesVectors.CipherVector | Virtio-serial-askisi/qemu-1.2.0/aes.c:885-1070 | the cipher gives the ciphertext of that example |
| AesVectors.BlockVector | Virtio-serial-askisi/qemu-1.2.0/aes.c:731-1261 | the code gives it too, from key bytes to ciphertext bytes, and takes it back |
| Aes.DecryptInvertsEncrypt | Virtio-serial-askisi/qemu-1.2.0/aes.c:832-878 | the equivalent inverse cipher under the decryption schedule inverts the cipher, for every schedule |
| Aes.EqInvCipherMatches | Virtio-serial-askisi/qemu-1.2.0/aes.c:1167-1261 | the equivalent inverse cipher is the inverse cipher of section 5.3 |
| Aes.InvCipherInverts | Virtio-serial-askisi/qemu-1.2.0/aes.c:1076-1261 | the inverse cipher undoes the cipher round by round |
| Aes.MixInverts | Virtio-serial-askisi/qemu-1.2.0/aes.c:46-58 | InvMixColumns undoes MixColumns |
| Aes.InvMixLinear | Virtio-serial-askisi/qemu-1.2.0/aes.c:853-876 | InvMixColumns may be moved across the key addition |
| Aes.EncryptColumn | Virtio-serial-askisi/qemu-1.2.0/aes.c:46-50 | four Te lookups are one column of SubBytes and MixColumns |
| Aes.DecryptColumn | Virtio-serial-askisi/qemu-1.2.0/aes.c:52-56 | four Td lookups are one column of InvSubBytes and InvMixColumns |
| AesField.SubInverts | Virtio-serial-askisi/qemu-1.2.0/aes.c:325-390 | the inverse S-box undoes the S-box, all 256 entries |
| AesField.SubIsAffineOfInverse | Virtio-serial-askisi/qemu-1.2.0/aes.c:325-390 | the S-box entries are the affine map after inversion in the field, section 5.1.1 of FIPS 197 |
| AesCbc.CbcInPlaceRoundTrip | Virtio-serial-askisi/qemu-1.2.0/aes.c:1265-1314 | encrypting and decrypting a buffer in place restores it, for every key, IV and length; in between it holds the CBC encryption under the cipher of FIPS 197 |
| AesCbc.CbcEncrypt | Virtio-serial-askisi/qemu-1.2.0/aes.c:1276-1294 | the encryption loop computes CBC (section 6.2 of NIST SP 800-38A) with a short last block filled with zeros, in place or not, and writes nothing beyond the rounded length |
| AesCbc.CbcDecrypt | Virtio-serial-askisi/qemu-1.2.0/aes.c:1295-1313 | the decryption loop likewise, for any length, in place or not |
| AesCbc.CbcEncBlock | Virtio-serial-askisi/qemu-1.2.0/aes.c:1277-1294 | each ciphertext block is the cipher of its data xor-ed with the block before it |
| AesCbc.CbcDecBlock | Virtio-serial-askisi/qemu-1.2.0/aes.c:1296-1313 | each data block is its ciphertext deciphered and xor-ed with the block before it, a short last one cut |
| AesCbc.CbcEncCarries | Virtio-serial-askisi/qemu-1.2.0/aes.c:1277-1294 | the value carried on in ivec is the last ciphertext block |
| AesCbc.CbcInverts | Virtio-serial-askisi/qemu-1.2.0/aes.c:1276-1313 | decryption inverts encryption for every length, given inverse block functions |
| AesCbc.CbcEncConcat | Virtio-serial-askisi/qemu-1.2.0/aes.c:1277-1285 | on whole blocks encrypting a ++ b is encrypting a, then b with the carried ivec |
| AesCbc.CbcDecConcat | Virtio-serial-askisi/qemu-1.2.0/aes.c:1296-1305 | so is decrypting |
| Sessions.HolderIsSafe | cryptodev-linux/ioctl.c:384-404 | in every reachable state of any number of threads, a session held from crypto_get_session_by_sid is live, has the id that thread asked for in its call, and is held by that thread alone |
| Sessions.AnswerIsRight | cryptodev-linux/ioctl.c:282-404 | over every run a thread holds, destroys or reports what its own call asked for, and comes away with nothing only if that is not listed any more |
| Sessions.RunAnswers | cryptodev-linux/ioctl.c:282-404 | each busy thread is where the call it set out with has brought it |
| Sessions.IdIsGiven | cryptodev-linux/ioctl.c:286-299 | a session has the id with which its call created it, or the one drawn for it at its last collision |
| Sessions.CallsEnd | cryptodev-linux/ioctl.c:282-404 | each step of a call brings it nearer its end unless ids collide, and nobody else's step sets it back |
| Sessions.AccessIsSafe | cryptodev-linux/ioctl.c:318-404 | a step touches a freed session exactly when it is the copy of the new id to the caller and that session is neither listed nor in a thread's hands any more; no session is freed twice |
| Sessions.FinishedBeforeReported | cryptodev-linux/ioctl.c:298-302 | a run after which another thread has finished the new session and that copy is about to read a freed one |
| Sessions.IdsAreDistinct | cryptodev-linux/ioctl.c:286-299 | listed sessions are live and their ids pairwise distinct |
| Sessions.NoSessionIsLost | cryptodev-linux/ioctl.c:282-382 | a session is live exactly while it is listed or in the hands of one thread |
| Sessions.LeavingEmptyHanded | cryptodev-linux/ioctl.c:347-378 | a lookup or removal ends without a session only if no listed one has the id, and the sweep of all sessions ends only with an empty list, following saved successors |
| Sessions.SomeThreadCanStep | cryptodev-linux/ioctl.c:345-404 | the lock order never deadlocks: while some thread is inside a call, a thread inside a call can step |
| Sessions.StepKeepsInv | cryptodev-linux/ioctl.c:282-404 | every step of every thread keeps the invariant behind these |
| Sessions.RunKeepsInv | cryptodev-linux/ioctl.c:282-404 | so does every run from an empty table |
| JobQueue.EachItemInOnePlace | cryptodev-linux/ioctl.c:406-606 | in every reachable state an item stands once in exactly one of free, todo, done and the worker's batch, or is in one thread's hands |
| JobQueue.ItemsAreBounded | cryptodev-linux/ioctl.c:544-563 | the items number itemcount minus failed and pending allocations, never more than 64, and -EBUSY means that 64 are accounted for |
| JobQueue.JobsComeBackInOrder | cryptodev-linux/ioctl.c:406-432 | with one worker, the k-th job fetched is the k-th that its thread submitted and appended, with the result of its own run, and none is fetched twice |
| JobQueue.RecordIsTheRun | cryptodev-linux/ioctl.c:540-573 | the jobs appended are, in order, those that the appending threads submitted, and the results those of serving them |
| JobQueue.SubmitAppends | cryptodev-linux/ioctl.c:540-573 | with an item free, or one that can be allocated, a submitted job is in todo after its thread's next steps; an item is allocated only when none is free |
| JobQueue.RoundServesAll | cryptodev-linux/ioctl.c:406-432 | one round of the worker leaves nothing in todo: every job appended has been fetched or can be |
| JobQueue.FetchGetsNext | cryptodev-linux/ioctl.c:580-606 | a fetch is -EBUSY exactly when no result waits; otherwise it gets the next job with its result, and the item is free again |
| JobQueue.ReleaseFreesEachOnce | cryptodev-linux/ioctl.c:487-508 | release frees every item once, and the count differs from itemcount exactly by the failed allocations |
| JobQueue.StepKeepsInv | cryptodev-linux/ioctl.c:406-606 | every critical section keeps the invariant behind these |
| JobQueue.RunKeepsInv | cryptodev-linux/ioctl.c:406-606 | so does every run after open |
| JobQueue.Open | cryptodev-linux/ioctl.c:460-468 | open allocates sixteen distinct items, or reports failure exactly when an allocation fails |
| JobQueue.Release | cryptodev-linux/ioctl.c:493-503 | the loop over the spliced lists frees free, todo and done in turn |
| Tls.OpenIff | cryptodev-linux/authenc.c:383-441 | with a MAC, a record opens with content length n exactly when its plaintext is n bytes, their tag, and well-formed padding (section 6.2.3.2 of RFC 5246) |
| Tls.RecordBytes | cryptodev-linux/authenc.c:341-374 | byte by byte: the content, then the MAC of associated data and content, then padding whose bytes are one less than its length, up to a whole block |
| Tls.OpenOtherwise | cryptodev-linux/authenc.c:393-441 | a record is -EINVAL exactly when the tag is longer than 64 bytes or than what the padding leaves; without a MAC it is accepted, with its padding cut off if well-formed |
| Tls.RoundTrip | cryptodev-linux/authenc.c:328-445 | what is sent is the encryption of content, tag and padding; decrypting it gives back every byte, for every record; it is accepted, with its length, exactly when there is no MAC or the tag has at most 64 bytes and its part beyond the digest agrees, and else fails with -EINVAL or -EBADMSG |
| Tls.RecordOpensIff | cryptodev-linux/authenc.c:341-441 | of the plaintext: a protected record opens exactly then |
| Tls.TagBeyondDigestFails | cryptodev-linux/authenc.c:200-206 | a record with a tag longer than the digest that does not open again |
| Tls.Encrypt | cryptodev-linux/authenc.c:340-382 | encryption yields the encrypted record; its length is block-aligned and within the space reserved, and nothing beyond it changes |
| Tls.Protect | cryptodev-linux/authenc.c:341-374 | tag and padding are appended to the content |
| Tls.Decrypt | cryptodev-linux/authenc.c:383-443 | decryption decrypts in place and answers as the reference says, with its error codes |
| Tls.CheckRecord | cryptodev-linux/authenc.c:393-441 | a bad padding is noticed but reported only with the tag; an oversized tag is rejected first |
| Tls.PadRecord | cryptodev-linux/authenc.c:289-299 | the padding fills the last block, all bytes one less than its length |
| Tls.VerifyPad | cryptodev-linux/authenc.c:301-323 | the padding check answers the padding length or failure |
| Tls.PadLengthIff | cryptodev-linux/authenc.c:301-323 | that length is n exactly when the record ends in n bytes of value n - 1 |
| CryptoRun.Device.RunStd | cryptodev-linux/main.c:104-159 | the page-by-page path computes the pieces in turn, for every source and destination; that is the one-shot result, in memory, cipher context and hash context, when one page is enough or the destination does not lie ahead within the source |
| CryptoRun.ChunkingIsInvisibleIff | cryptodev-linux/main.c:104-159 | for every session, direction and memory serving page by page is serving at once, if and only if one page is enough or the destination does not begin inside the source behind its start |
| CryptoRun.ChunksAreOneShot | cryptodev-linux/main.c:126-155 | the "if" half, for one session |
| CryptoRun.OverlapDiffers | cryptodev-linux/main.c:126-155 | on all other requests a bytewise cipher on zeroed memory tells the two apart |
| CryptoRun.Device.RunZc | cryptodev-linux/main.c:163-183 | the zero-copy path, and its fallback when pages cannot be mapped, compute it too, when moreover there is a cipher, no hash, an encryption, or one buffer |
| CryptoRun.OneShotSplits | cryptodev-linux/main.c:126-155 | serving a bytes and then b is serving a + b, on whole blocks |
| CryptoRun.OneShotEffect | cryptodev-linux/main.c:56-100 | the cipher's output is at the destination and nowhere else, and the plaintext side has been hashed |
| CryptoRun.BothEndsHashTheSame | cryptodev-linux/main.c:56-100 | encrypting and decrypting back end in the same hash state |
| CryptoRun.SetupEffect | cryptodev-linux/main.c:203-226 | a request starts from its own IV, and from a fresh hash exactly when its flags are zero or ask for it |
| CryptoRun.ServedEffect | cryptodev-linux/main.c:185-257 | a request on either path, spelled out: what is at the destination, and the cipher and hash contexts it leaves |
| CryptoRun.MappedIsOneShotIff | cryptodev-linux/main.c:89-94 | for a hash that tells inputs apart the two paths agree exactly then, or when source and destination hold the same bytes |
| CryptoRun.HashOnlyDecryptDiffers | cryptodev-linux/main.c:80-94 | a concrete hash-only decryption on which they differ |
| CryptoRun.Device.HashAndCrypt | cryptodev-linux/main.c:56-100 | the source is hashed before an encryption and the result after a decryption, the cipher's output replaces exactly the destination, and a partial block is an error |
| CryptoRun.Device.Run | cryptodev-linux/main.c:185-257 | a whole request: hash reset, length check, IV, path, final IV and digest |
| CryptoRun.MappingIsInvisible | cryptodev-linux/main.c:171-177 | whether the pages could be mapped does not show in the result of such a request |
| CryptoRun.NoZcIsInvisible | cryptodev-linux/main.c:228-235 | nor does COP_FLAG_NO_ZC on a flag word that has another bit set |
| CryptoRun.NoZcKeepsHash | cryptodev-linux/main.c:203-210 | on a zero flag word it suppresses the hash reset, visible exactly when there was something to reset |
| Scatter.SgCopy | cryptodev-linux/util.c:59-79 | the copied list covers exactly the first len bytes of the original, and space for as many entries suffices |
| Scatter.SgAdvance | cryptodev-linux/util.c:28-53 | the advanced list covers exactly the bytes after the consumed ones; null exactly when none are left |
| ZeroCopy.Session.MapBuffer | cryptodev-linux/zc.c:49-81 | for every address, length and page size the entries concatenate to exactly the user bytes, using exactly PAGECOUNT pages, each pinned once |
| ZeroCopy.Session.FillEntries | cryptodev-linux/zc.c:68-79 | the entry loop does so given the pinned pages |
| ZeroCopy.Session.AdjustArray | cryptodev-linux/zc.c:83-107 | the array grows to the first doubling that suffices, or stays on failure |
| ZeroCopy.Session.GetUserbuf | cryptodev-linux/zc.c:130-216 | success exactly when the array could be had and each buffer with bytes in it pinned; both lists then cover their buffers, in place the one list the source bytes, and the pages pinned are those of the buffers |
| ZeroCopy.Session.MapBoth | cryptodev-linux/zc.c:187-213 | two buffers: when only the destination cannot be pinned, the pages noted for both are given back, although only those of the source were taken |
| ZeroCopy.Session.Release | cryptodev-linux/zc.c:109-125 | every used page is given back once, in order |
| ZeroCopy.Session.UseBuffers | cryptodev-linux/zc.c:109-216 | a use always succeeds here, and pages pinned and pages given back agree exactly unless source and destination are one buffer with nothing to read and room to write |
| ZeroCopy.EmptyInPlaceUnbalanced | cryptodev-linux/zc.c:160-186 | such a use, which gives back a page that was never pinned |
| ZeroCopy.UserSpanDistinct | cryptodev-linux/zc.c:49-81 | the bytes of a buffer have distinct physical addresses when its pages do |
| Srtp.MapRecord | cryptodev-linux/authenc.c:106-176 | the second list covers exactly authenticated bytes diff onwards, on the pages of the buffer; success exactly for 0 <= diff <= 256 within the buffer and no failed allocation or pinning |
| Srtp.MapLists | cryptodev-linux/authenc.c:151-173 | what was pinned is given back when the second list would be empty |
| Srtp.SecondList | cryptodev-linux/authenc.c:164-173 | copying and advancing gives the tail of the list, null exactly when diff reaches its end |
| Srtp.Engine.RoundTrip | cryptodev-linux/authenc.c:450-536 | the tag covers header, ciphertext and trailer; decryption succeeds and restores memory exactly when the tag is no longer than the payload and 64 bytes and its part beyond the digest agrees, and else leaves memory as encrypted |
| Srtp.RecordRoundTrip | cryptodev-linux/authenc.c:106-536 | the same for a record mapped from user memory, on the lists that the mapping builds |
| Srtp.TagBeyondDigestFails | cryptodev-linux/authenc.c:200-206 | a record with a tag longer than the digest that is rejected |
| Srtp.Engine.Encrypt | cryptodev-linux/authenc.c:462-491 | the payload is encrypted along its list, then the tag is computed over the whole authenticated list |
| Srtp.Engine.Decrypt | cryptodev-linux/authenc.c:493-531 | the tag is checked first, and a failed check changes nothing |
| Srtp.PutWithin | cryptodev-linux/authenc.c:460-491 | storing along a stretch of a list changes just that stretch of what the list reads |
| BottomHalf.Context.Poll | Virtio-serial-askisi/qemu-1.2.0/async.c:55-92 | under callbacks that create, schedule, cancel, delete or poll again, state, counters, record and result are exactly those of the specification; the outermost poll ends with the new bottom halves, newest first, then the old ones in order, minus exactly the deleted, which are freed, and a nested one frees nothing; every change to a bottom half is accounted for by the record |
| Halves.PollAccounts | Virtio-serial-askisi/qemu-1.2.0/async.c:44-121 | over a poll a bottom half is run, scheduled, dropped, deleted only as recorded of callbacks (runs exactly, schedules and drops at most as often, deleted if and only if deleted before or by a callback), as many are made as recorded, and the outermost poll frees exactly the deleted |
| Halves.PollRunsWhatIsDue | Virtio-serial-askisi/qemu-1.2.0/async.c:64-73 | whatever is due when a poll begins is run in it unless a callback cancels or deletes it |
| Halves.PollCalls | Virtio-serial-askisi/qemu-1.2.0/async.c:55-92 | callbacks are called in list order, newest first, from the first one due on, the body of each done before the next call; the result tells whether one of them was not idle; if none is due nothing happens |
| Halves.QuietPoll | Virtio-serial-askisi/qemu-1.2.0/async.c:64-73 | if callbacks do nothing, exactly those due run, once each, and the result tells whether one was not idle |
| Halves.ActsAccount | Virtio-serial-askisi/qemu-1.2.0/async.c:44-121 | whatever a callback does, nested polls included, is on record |
| Halves.SimpleEffect | Virtio-serial-askisi/qemu-1.2.0/async.c:44-121 | an act on a bottom half changes exactly the fields it should, and no other bottom half; one on what is freed changes nothing |
| Halves.RunEffect | Virtio-serial-askisi/qemu-1.2.0/async.c:65-72 | calling one takes its schedule away, counts one run, and changes nothing else of it |
| Halves.PollIsRecorded | Virtio-serial-askisi/qemu-1.2.0/async.c:55-92 | after a poll every bottom half is as the recorded acts and calls make it one after another, and each call was of one scheduled and not deleted at that moment |
| Halves.PollKeepsSchedules | Virtio-serial-askisi/qemu-1.2.0/async.c:55-110 | what a callback schedules and no later one cancels or deletes is due when the poll ends, or has been run since |
| Halves.NestedPollRunsWhatIsDue | Virtio-serial-askisi/qemu-1.2.0/async.c:64-73 | whatever is due when a callback polls again is run in that poll unless cancelled or deleted in it |
| BottomHalf.Context.RunList | Virtio-serial-askisi/qemu-1.2.0/async.c:64-73 | one pass visits exactly the list as it was on entry, although callbacks change it, and does what the specification says |
| BottomHalf.Context.Loop | Virtio-serial-askisi/qemu-1.2.0/async.c:64-73 | so does the loop from any entry on |
| BottomHalf.Context.ListIs | Virtio-serial-askisi/qemu-1.2.0/async.c:44-53 | the linked list is the live bottom halves from the newest to the oldest |
| BottomHalf.Context.Turn | Virtio-serial-askisi/qemu-1.2.0/async.c:64-72 | the loop never follows a freed bottom half: the one visited is live, and the successor noted before the callback is still the next entry after it |
| BottomHalf.Context.Visit | Virtio-serial-askisi/qemu-1.2.0/async.c:65-72 | a callback is called exactly when due, consumes one schedule, and its body is performed; otherwise nothing changes |
| BottomHalf.Context.Begin | Virtio-serial-askisi/qemu-1.2.0/async.c:66-71 | the schedule of the one called is taken away, field by field, and its run recorded |
| BottomHalf.Context.RunActs | Virtio-serial-askisi/qemu-1.2.0/async.c:44-121 | what a callback does, in order, has exactly the specified effect on every bottom half, and keeps list and running polls intact |
| BottomHalf.Context.Perform | Virtio-serial-askisi/qemu-1.2.0/async.c:44-121 | each operation of a callback leaves the bottom half named, field by field, as asked, and touches no other |
| BottomHalf.Context.Reap | Virtio-serial-askisi/qemu-1.2.0/async.c:77-89 | the pointer-to-pointer loop unlinks and frees exactly the deleted ones |
| BottomHalf.Context.Finish | Virtio-serial-askisi/qemu-1.2.0/async.c:75-89 | the end of the outermost poll frees exactly the deleted ones and leaves the others in order |
| BottomHalf.Context.ReapOne | Virtio-serial-askisi/qemu-1.2.0/async.c:80-88 | one turn of it |
| BottomHalf.Context.New | Virtio-serial-askisi/qemu-1.2.0/async.c:44-53 | a new bottom half goes to the head of the list |
| BottomHalf.Context.Schedule | Virtio-serial-askisi/qemu-1.2.0/async.c:102-110 | scheduling twice counts once |
| BottomHalf.Context.ScheduleIdle | Virtio-serial-askisi/qemu-1.2.0/async.c:94-100 | likewise, marked idle |
| BottomHalf.Context.Cancel | Virtio-serial-askisi/qemu-1.2.0/async.c:112-115 | a pending schedule is dropped |
| BottomHalf.Context.Delete | Virtio-serial-askisi/qemu-1.2.0/async.c:117-121 | likewise, and the deletion is marked |
| BottomHalf.Context.InList | Virtio-serial-askisi/qemu-1.2.0/async.c:64-65 | an entry of the list on entry stays live and followed by the same one |
| Bitmap.Set | Virtio-serial-askisi/qemu-1.2.0/bitmap.c:160-178 | the mask loop sets exactly the bits of the range |
| Bitmap.Clear | Virtio-serial-askisi/qemu-1.2.0/bitmap.c:180-198 | the mask loop clears exactly the bits of the range |
| Bitmap.ClearUndoesSet | Virtio-serial-askisi/qemu-1.2.0/bitmap.c:160-198 | clearing a range that was clear before it was set brings every bit back |
| Bitmap.FindNextBit | Virtio-serial-askisi/qemu-1.2.0/bitops.c:21-64 | the least set bit at or after the offset, or the size |
| Bitmap.FindNextZeroBit | Virtio-serial-askisi/qemu-1.2.0/bitops.c:70-113 | the least zero bit at or after the offset, or the size |
| Bitmap.FindZeroArea | Virtio-serial-askisi/qemu-1.2.0/bitmap.c:214-237 | the least aligned zero area at or after start that fits, or a value above size exactly when there is none |
| Bitmap.AlignMaskRoundsUp | Virtio-serial-askisi/qemu-1.2.0/bitmap.c:200 | ALIGN_MASK on words rounds up to a multiple of the power of two, if the sum does not wrap |
| Bitmap.Allocate | Virtio-serial-askisi/qemu-1.2.0/bitmap.c:160-237 | finding and marking changes exactly the bits of a free area, or nothing |
| Bitmap.AllocateTwice | Virtio-serial-askisi/qemu-1.2.0/bitmap.c:160-237 | each of two successive allocations takes the least room if there is any; they are disjoint, and freeing both brings every bit back |
| Bits.FirstBit | Virtio-serial-askisi/qemu-1.2.0/bitops.h:31-61 | the halving search finds the least set bit |
| Scull.Device.Write | LDD3Examples/scull/main.c:209-262 | a write changes exactly its own range of the sparse file, up to the end of the quantum, and the size; it fails exactly when memory runs out, never where a byte has been written, and then changes nothing |
| Scull.Device.WriteSampled | LDD3Examples/scull/main.c:214-262 | a write by a geometry sampled before the semaphore was had: it writes the bytes that this geometry points at in the present one, and runs outside an array or quantum, or makes one of another size, exactly as stated |
| Scull.Device.Read | LDD3Examples/scull/main.c:164-207 | a byte written since the last trim is read with its last value; the length is exact, and holes give nothing |
| Scull.Device.ReadSampled | LDD3Examples/scull/main.c:169-207 | a read by a geometry sampled before the semaphore was had: it reads the byte that this geometry points at in the present one, and runs outside the array or the quantum exactly as stated |
| Scull.SampleIsRightIff | LDD3Examples/scull/main.c:169-185 | it starts at the byte asked for exactly when both geometries give that byte the same place |
| Scull.SampleIsAlwaysRightIff | LDD3Examples/scull/main.c:169-185 | they do so for every byte exactly when they are the same |
| Scull.Device.WriteThenRead | LDD3Examples/scull/main.c:164-262 | what a write accepted is what a read there gives back; a nonempty write over written bytes accepts something |
| Scull.Device.Trim | LDD3Examples/scull/main.c:75-96 | trim frees every block of the device once, by the device's own geometry even after ioctl changed the global one, and touches no other block |
| Scull.Device.FreeItem | LDD3Examples/scull/main.c:81-90 | one list item is freed with its array and quanta, each block once |
| Scull.Device.Follow | LDD3Examples/scull/main.c:135-159 | the n-th item is reached or the list extended to it, without disturbing any quantum, failing exactly when memory runs out |
| Scull.Device.ReservePiece | LDD3Examples/scull/main.c:238-242 | a quantum that is there is found, and a missing one allocated and linked, failing exactly when memory runs out |
| Scull.Device.ReserveArray | LDD3Examples/scull/main.c:232-237 | an array that is there is found, and a missing one allocated and linked, failing exactly when memory runs out |
| Scull.Device.SetGeometry | LDD3Examples/scull/main.c:327-400 | ioctl sets the global geometry and changes nothing else |
| Scull.SetByteAt | LDD3Examples/scull/main.c:222-248 | overwriting part of a quantum changes exactly those bytes of the file |
| Scull.PlaceOf | LDD3Examples/scull/main.c:181-185 | item, array index and offset name each byte uniquely |
| Scull.PlaceWithin | LDD3Examples/scull/main.c:193-201 | bytes of one quantum are consecutive |
| Pipe.FirstInFirstOut | LDD3Examples/scull/pipe.c:119-227 | over every interleaving of readers and writers, what was read is a prefix of what was accepted, short of it by less than the buffer |
| Pipe.SpaceMeansSemaphore | LDD3Examples/scull/pipe.c:158-179 | a writer leaves scull_getwritespace holding the semaphore exactly when it got space, one thread at a time |
| Pipe.SleepersAreWoken | LDD3Examples/scull/pipe.c:119-227 | no lost wake-up: a reader asleep with data waiting, or a writer asleep with space free, has a wake-up pending |
| Pipe.SomeoneCanStep | LDD3Examples/scull/pipe.c:119-227 | unless everyone in a call sleeps for want of data, or everyone for want of space, one of them can go on without a signal |
| Pipe.HolderIsServed | LDD3Examples/scull/pipe.c:119-227 | over every run, a thread that has the semaphore and need not wait is served as its own call asked: the oldest bytes returned, or its first bytes accepted, as many as fit in one piece; a faulting copy moves nothing |
| Pipe.CallIsAsked | LDD3Examples/scull/pipe.c:119-227 | a thread stays with the call it set out with |
| Pipe.OtherTurns | LDD3Examples/scull/pipe.c:119-227 | no other step moves a byte; a call comes back unserved only for a signal, a fault, or when it must not wait and had to |
| Pipe.ReadTakesOldest | LDD3Examples/scull/pipe.c:138-149 | a read takes the oldest bytes, as many as asked for or as stand in one piece, keeps the others, and the pointers stay in range |
| Pipe.WriteAppends | LDD3Examples/scull/pipe.c:203-216 | a write appends what it accepts: all of it, or until the buffer is full or ends; a nonempty one never makes the pointers equal |
| Pipe.SpaceFree | LDD3Examples/scull/pipe.c:182-187 | the free space is the buffer less one less what is waiting |
| Pipe.Device.Take | LDD3Examples/scull/pipe.c:138-149 | the code in place does so |
| Pipe.Device.Put | LDD3Examples/scull/pipe.c:203-216 | the code in place does so |
| Pipe.RunKeepsInv | LDD3Examples/scull/pipe.c:119-227 | every run after open keeps flow, semaphore and wake-up invariants |

## Left out

- Migration.MigrationDelivers: assumes that no cached page goes out as a duplicate page, since the property is false otherwise (Migration.CounterexampleRun); Migration.MigrationSafeIff shows that this is the exact condition.
- RamSave.Setup: the sorting of the block list, the size of the cache and its resizing during a migration; the cache has a fixed number of buckets and `migrate_use_xbzrle` does not change during a run.
- RamLoad.RamLoader.LoadSection: end of file and an offset outside its block, which the source does not check, are error results here; the receiver's memory after an error is not specified, since the incoming migration is abandoned then.
- Bandwidth estimates, rate limiting and accounting in `ram_save_iterate`; audio, UUID and configuration parts of `arch_init.c`.
- Xbzrle.SkipDiff: the word loop compares words by their bytes; Xbzrle.ZeroByteTest shows that the mask test means the same.
- AesCode.Encrypt: the literal Te and Td tables are replaced by the definitions in the comment above them (aes.c:46-58); the S-box literals are kept. A block is passed by value. The `FULL_UNROLL` branches are compiled out.
- RamLoad.RamLoader.StorePage: the receiver's state after an error, likewise.
- Sessions.AccessIsSafe: the result of removing an id that is not listed is not claimed, since the test at ioctl.c:355 does not detect the end of the list.
- Sessions.SomeThreadCanStep: says that the table never deadlocks, not that a re-rolled random id is eventually unique.
- JobQueue.Open: items already allocated when a later allocation fails are not freed by the source, and are not counted.
- JobQueue.JobsComeBackInOrder: one worker at a time, as the work item guarantees.
- Tls.Decrypt: a record to be unpadded is assumed nonempty, since the source reads its last byte first.
- Tls.Encrypt: bytes of a tag beyond the digest are whatever the stack holds beyond it, a parameter here; the stack is assumed as long as the tag.
- Tls.OpenIff: for sessions with a MAC; Tls.OpenOtherwise has the others.
- CryptoRun.Device.RunStd: page allocation failure and faulting copies.
- CryptoRun.Device.RunZc: on overlapping but different buffers a cipher on mapped pages is taken to read its input before it writes.
- CryptoRun.MappedIsOneShotIff: the "only if" half is for hashes that tell inputs of one length apart; for any hash CryptoRun.MappedIsOneShot gives the other half.
- ZeroCopy.Session.GetUserbuf: a pinning that stops half way; it pins every page or none here.
- ZeroCopy.Session.UseBuffers: the balance is false for one buffer with nothing to read and room to write, where pages are given back that were not pinned; the contract states the exact condition.
- Srtp.MapRecord: a null authenticated buffer.
- Srtp.Engine.RoundTrip: the payload is assumed to lie within the authenticated buffer, which the source does not check, and the pages to be distinct.
- BottomHalf.Context.Poll: callbacks do not use a bottom half after it is freed.
- Scull.Device.WriteSampled: what follows once a write has run outside or made a block of another size.
- Scull.Device.SetGeometry: values of zero or below, which the source accepts and would later divide by.
- Pipe.Device.constructor: an open that finds a buffer of another size than the current setting.
- Poll and select, asynchronous notification, `/proc`, ioctl decoding, module setup, user copies other than as a possible failure.
- The AEAD path of `authenc.c` and `cryptlib.c`: thin wrappers around the kernel's cipher interface.
- The other scull variants, the block, network, tty and USB drivers, `aio.c`, disassemblers: near copies, hardware access or tables with no hard property.
