# Sky1 flash-image tooling: model and proofs

This project models the programs under `Platform/CIX/Sky1/PackageTool` that build, check and patch
flash images of the CIX Sky1 platform, and proves what the images they write contain.

* The **memory-configuration packer** makes two passes over a list of blocks. The first fills in checksums in
  place and lays out an offset table with a 16-bit cursor; the second copies everything into one buffer, hashes
  the feature blocks there, and writes the hash into the front. The blocks are mutable buffers (`array<byte>`),
  an entry may be listed twice, and both cursors wrap as in the source.
  (`MemImage`, `MemLayout`, `MemTiling`, `MemRoundTrip`, `MemBoundary`, `MemFeatHash`, `MemStoredHash`,
  `MemHashChange`, `MemHashMerge`, `MemFile`, `MemPacker`, `ByteCheckSum`, `DjbHash`, `HashPairs`, `HashLogs`.)
* The **power-management** and **TrustZone generators** assemble a structure over a 0xFF background and store
  a two-accumulator checksum inside the data it covers. (`DoubleSum`, `SumDetection`, `SealedImage`, `TrustZone`,
  `TrustZoneLaws`, `TrustZoneFile`, `FanTable`, `OppTable`, `PmImage`, `PmTool`, `PmLaws`, `PmFile`.)
* The **sub-image replacer** parses a record table, overwrites a region, and patches the record's size field.
  Files are objects with a position, records are mutable objects that are looked up again by value.
  (`BinaryFile`, `SubImage`, `SubImageEffect`, `SubImageLaws`, `SubImageRuns`, `SubImageCover`,
  `SubImageExamples`, `SubImageOutcome`, `SubImageTool`.)

`Bytes`, `Memory` and `Layout` hold little-endian integers, stores into buffers, and structures as the
concatenation of their fields. Each method is proved against a function of the old contents; the results about
those functions are lemmas. `MemFile`, `PmFile`, `TrustZoneFile` and `SubImageOutcome` state in plain numbers and
fixed positions what each tool writes, and when the replacer refuses. `HashLogs` lists discrete logarithms to
base 33, each checked where it is listed; they show that no block is long enough for a changed byte and its
checksum byte to cancel in the hash. Integers are little-endian, widths and wrap-around are written out.

Five results contradict what a reader of the source would expect:

* Parse mode of the TrustZone tool checks the sums of the whole structure, stored checksums included, against a
  variable that is still 0. It therefore accepts a generated image only for one timestamp, if at all, and never
  one made from the shipped configuration (`TrustZoneLaws.ParseAcceptance`, `TrustZoneLaws.ShippedNeverPasses`).
  The comments at `Platform/CIX/Sky1/PackageTool/trustzone_config/trustzone_export_config.h:71-72`
  say that the two checksums cover different parts; both cover the whole structure, and the model follows the code.
* The packer's second cursor starts 32 higher than its first. A list whose total is 65520 and whose last block is
  at most 16 bytes long passes the first and wraps in the second; and a block whose size field is below 9 is not
  found by a reader (`MemBoundary.PackReadsBack`, with `MemBoundary.BoundaryExists` and `MemBoundary.TinyExists`).
* When that last block is a feature block of 9 to 15 bytes, the tool hashes bytes of the quick config along with it
  instead of zeros, and the stored hash is in general not the intended one (`MemStoredHash.StoredIsIntendedMeasured`,
  `MemStoredHash.SpoiledExists`).
* Last write wins and commutation of replacements hold under exact conditions on overhanging or overlapping
  bytes (`SubImageLaws.LastWriteWins`, `SubImageLaws.Commute`, with images that fail them in `SubImageExamples`).
* The opp validator dereferences a null CPU domain (`OppTable.CheckOppTable`, `OppTable.NullCpuExists`).

## Model

| member | source | states |
|---|---|---|
| `MemPacker.Pack` | Platform/CIX/Sky1/PackageTool/mem_config/MemConfigBinTool.c:71-133 | the whole tool over buffers in memory: the first invalid id stops it, with exactly the blocks before it sealed; no later block touched; otherwise all blocks are sealed in place (an entry listed twice included) and the result is the packed image of the sealed blocks |
| `MemPacker.FirstPass` | Platform/CIX/Sky1/PackageTool/mem_config/MemConfigBinTool.c:88-106 | after the pass every block is sealed and the table holds its id and 16-bit offset, rows in list order, zeros behind; it stops at the first invalid id and nowhere else |
| `MemPacker.SealInPlace` | Platform/CIX/Sky1/PackageTool/mem_config/MemConfigBinTool.c:97-100 | clearing the checksum byte and filling it in turns a block, sealed before or not, into its sealed form and touches no other byte |
| `MemPacker.InitHeader` | Platform/CIX/Sky1/PackageTool/mem_config/MemConfigBinTool.c:72-79 | the zeroed header with its constant fields, field by field at their structure offsets |
| `MemPacker.FinishHeader` | Platform/CIX/Sky1/PackageTool/mem_config/MemConfigBinTool.c:108-109 | total size and checksum complete the header |
| `MemPacker.SecondPass` | Platform/CIX/Sky1/PackageTool/mem_config/MemConfigBinTool.c:111-132 | the buffer after all copies and the hash write is the packed image, 16-bit cursor wrap included |
| `MemPacker.CopyOne` | Platform/CIX/Sky1/PackageTool/mem_config/MemConfigBinTool.c:122-130 | one block copied at the cursor, hashed over its aligned length in the buffer if it is a feature block, cursor advanced modulo 2^16 |
| `MemFile.SealInNumbers` | Platform/CIX/Sky1/PackageTool/mem_config/MemConfigBinTool.c:97-100 | sealing a block changes byte 10 alone, to 0xFF less the byte sum over the block's size with that byte zero, modulo 256 |
| `MemFile.FirstOffset` | Platform/CIX/Sky1/PackageTool/mem_config/MemConfigBinTool.c:81-88 | the first table offset is 64 plus four bytes for each block, rounded up to 16 |
| `MemFile.NextOffset` | Platform/CIX/Sky1/PackageTool/mem_config/MemConfigBinTool.c:101-106 | each offset is the one before it plus that block's size rounded up to 16, and the last one is the total |
| `MemFile.HeaderInFile` | Platform/CIX/Sky1/PackageTool/mem_config/MemConfigBinTool.c:72-109 | in every file the tool writes: signature at 32, version 1.6 at 40 and 42, table offset 64 at 44, block count at 46, header size at 48, total size at 50, zeros in between, and 64 bytes that sum to 0xFF modulo 256 |
| `MemFile.RowInFile` | Platform/CIX/Sky1/PackageTool/mem_config/MemConfigBinTool.c:91-104 | row i of the table lies at 96+4i: the id of block i, then its offset |
| `MemFile.RowsEndInFile` | Platform/CIX/Sky1/PackageTool/mem_config/MemConfigBinTool.c:81-88 | behind the rows there are zeros up to the first block |
| `MemFile.BlockInFile` | Platform/CIX/Sky1/PackageTool/mem_config/MemConfigBinTool.c:121-131 | byte b of a block in reach lies at 32 plus its offset plus b, and zeros follow up to a multiple of 16 |
| `MemFile.QuickInFile` | Platform/CIX/Sky1/PackageTool/mem_config/MemConfigBinTool.c:114-132 | if no block that is not empty wraps, the first 32 bytes of the file are those of the quick config, but for bytes 12 to 15 that hold the hash |
| `MemFile.WrappedInFile` | Platform/CIX/Sky1/PackageTool/mem_config/MemConfigBinTool.c:116-132 | if one does, its bytes are on top of the quick config from byte 0 on, but for the same four, and the rest of the quick config stays |
| `MemFile.ListHashInNumbers` | Platform/CIX/Sky1/PackageTool/mem_config/MemConfigBinTool.c:28-43 | the running hash starts at 0 and is moved by blocks with id 0x1002 only; from 0 it starts over at 5381 |
| `MemFile.RunInNumbers` | Platform/CIX/Sky1/PackageTool/mem_config/MemConfigBinTool.c:36-42 | one more byte: 33 times the hash plus the byte, modulo 2^32 |
| `MemFile.ReachedWindow` | Platform/CIX/Sky1/PackageTool/mem_config/MemConfigBinTool.c:121-130 | what is hashed of a block in reach: its bytes up to its size, then zeros up to a multiple of 16 |
| `MemFile.WrappedWindowIs` | Platform/CIX/Sky1/PackageTool/mem_config/MemConfigBinTool.c:121-130 | what is hashed of a block that wraps: its bytes, then the quick config from there up to byte 16 |
| `MemImage.AlignIsShift` | Platform/CIX/Sky1/PackageTool/mem_config/MemConfigBinTool.c:5 | the shift expression of the alignment macro is the least multiple of 16 not below its argument |
| `MemLayout.OffsetsGrow` | Platform/CIX/Sky1/PackageTool/mem_config/MemConfigBinTool.c:88-106 | table offsets are in order and block regions do not overlap: offset plus aligned size of block i is at most the offset of any later block and the total |
| `MemLayout.OffsetsAligned` | Platform/CIX/Sky1/PackageTool/mem_config/MemConfigBinTool.c:88-106 | every table offset and the total are multiples of 16 |
| `MemTiling.CopiedTiles` | Platform/CIX/Sky1/PackageTool/mem_config/MemConfigBinTool.c:111-131 | both passes agree: as long as the cursor reaches the blocks, the buffer after i blocks is quick config, header, table and the first i zero-padded blocks with nothing between them, then zeros, and the running hash is the feature hash of those blocks |
| `MemTiling.PackedTiles` | Platform/CIX/Sky1/PackageTool/mem_config/MemConfigBinTool.c:111-132 | exact tiling of the final image: quick config carrying the hash, header, table, padded blocks |
| `MemTiling.OutOfReach` | Platform/CIX/Sky1/PackageTool/mem_config/MemConfigBinTool.c:111-131 | when the sizes are at least 9 and the 16-bit copying cursor misses a block, that block is the last one, no longer than 16 bytes, and the buffer has 65552 bytes |
| `MemTiling.PackedFrom16` | Platform/CIX/Sky1/PackageTool/mem_config/MemConfigBinTool.c:111-132 | blocks of any size, empty ones included: behind byte 16 the written image is the front, the padded blocks the cursor reaches, and zeros; wrapped copies stay within the first 16 bytes |
| `MemBoundary.WrappedBlockLost` | Platform/CIX/Sky1/PackageTool/mem_config/MemConfigBinTool.c:116-131 | in that case the block is written over the quick config, its own place stays zero, and the image differs from the intended one |
| `MemBoundary.PackedIffReached` | Platform/CIX/Sky1/PackageTool/mem_config/MemConfigBinTool.c:81-131 | for sizes of at least 9 the tool writes the intended image if and only if its copying cursor reaches every block |
| `MemBoundary.PackReadsBack` | Platform/CIX/Sky1/PackageTool/mem_config/MemConfigBinTool.c:71-133 | pack/parse round trip, exactly, for every list of blocks of any size whose table offsets fit 16 bits: reading the image back gives the ids and checksum-filled bytes of all blocks in order if and only if every size is at least 9 and it is not the case that the total is 65520 and the last block is at most 16 bytes long |
| `MemBoundary.BoundaryExists` | Platform/CIX/Sky1/PackageTool/mem_config/MemConfigBinTool.c:88-131 | such a list exists: two blocks of 65424 and 16 bytes, whose image does not read back |
| `MemBoundary.TinyExists` | Platform/CIX/Sky1/PackageTool/mem_config/MemConfigBinTool.c:121-131 | a list with a size below 9 that does not read back: one block of size 8, whose size field is not copied |
| `MemBoundary.PackedChecks` | Platform/CIX/Sky1/PackageTool/mem_config/MemConfigBinTool.c:97-132 | for lists whose sizes take in the checksum byte: the header slice and every block slice of the written image sum to 0xFF modulo 256 if and only if the last block is not out of the copying cursor's reach |
| `MemRoundTrip.TiledRoundTrip` | Platform/CIX/Sky1/PackageTool/mem_config/include/MemConfigurationTable.h:55-88 | the reader that follows header, table and block headers recovers the blocks of any intended image whose sizes are at least 9 |
| `MemRoundTrip.HeaderReads` | Platform/CIX/Sky1/PackageTool/mem_config/include/MemConfigurationTable.h:57-70 | signature, versions, table offset, block count, header size and total size are found at the structure's offsets |
| `MemRoundTrip.BlockRegion` | Platform/CIX/Sky1/PackageTool/mem_config/MemConfigBinTool.c:121-131 | block i lies at 32 plus its table offset, followed by zeros up to its aligned size |
| `MemRoundTrip.SealedBlockChecks` | Platform/CIX/Sky1/PackageTool/mem_config/MemConfigBinTool.c:97-100 | a sealed block whose size takes in the checksum byte sums to 0xFF modulo 256 over the bytes its header counts, and a block that checks out is already sealed |
| `MemLayout.SealIdempotent` | Platform/CIX/Sky1/PackageTool/mem_config/MemConfigBinTool.c:97-100 | filling in the checksum a second time changes nothing, whatever the size |
| `MemRoundTrip.ImageChecks` | Platform/CIX/Sky1/PackageTool/mem_config/MemConfigBinTool.c:97-132 | every checksum of the final image holds after the copies and the hash write, for sizes that take in the checksum byte |
| `MemRoundTrip.RepackIdentical` | Platform/CIX/Sky1/PackageTool/mem_config/MemConfigBinTool.c:97-132 | packing the blocks a first run has mutated gives the identical image, whatever their sizes |
| `MemLayout.SameContentsSameImage` | Platform/CIX/Sky1/PackageTool/mem_config/MemConfigBinTool.c:71-132 | the written image depends on the ids and the copied parts of the blocks only |
| `ByteCheckSum.GenCheckSum` | Platform/CIX/Sky1/PackageTool/mem_config/MemConfigBinTool.c:11-25 | the loop returns the complement of the byte sum modulo 256 |
| `ByteCheckSum.OneByteChecks` | Platform/CIX/Sky1/PackageTool/mem_config/MemConfigBinTool.c:11-25 | for any position of a slice exactly one byte value makes it check out, namely the checksum of the slice with that byte zero |
| `ByteCheckSum.ByteChangeDetected` | Platform/CIX/Sky1/PackageTool/mem_config/MemConfigBinTool.c:11-25 | any single-byte change of a slice that checks out is detected |
| `DjbHash.DJBHash` | Platform/CIX/Sky1/PackageTool/mem_config/MemConfigBinTool.c:28-43 | the loop, shifts and 32-bit wrap included, computes the seeded base-33 hash of the bytes |
| `DjbHash.ClosedForm` | Platform/CIX/Sky1/PackageTool/mem_config/MemConfigBinTool.c:36-42 | the hash is h*33^n plus the base-33 value of the bytes, modulo 2^32 |
| `DjbHash.RunInjective` | Platform/CIX/Sky1/PackageTool/mem_config/MemConfigBinTool.c:40-42 | hashing the same bytes is one-to-one in the starting hash |
| `DjbHash.RunOnto` | Platform/CIX/Sky1/PackageTool/mem_config/MemConfigBinTool.c:40-42 | and onto: for any bytes every hash is reached from exactly one starting hash |
| `DjbHash.ByteSensitive` | Platform/CIX/Sky1/PackageTool/mem_config/MemConfigBinTool.c:40-42 | strings that differ in one byte hash differently from the same start |
| `DjbHash.TwoBytesCollide` | Platform/CIX/Sky1/PackageTool/mem_config/MemConfigBinTool.c:40-42 | changing two bytes at distance k collides exactly when 33^k times the first change plus the second is a multiple of 2^32 |
| `DjbHash.AdjacentCollision` | Platform/CIX/Sky1/PackageTool/mem_config/MemConfigBinTool.c:40-42 | changing two adjacent bytes collides exactly when the second drops by 33 times what the first gains |
| `HashPairs.NeverCancel` | Platform/CIX/Sky1/PackageTool/mem_config/MemConfigBinTool.c:5-43 | two byte changes that cancel in the byte checksum, at any distance below 65536, never cancel in the hash |
| `MemFeatHash.FeatHashMeaning` | Platform/CIX/Sky1/PackageTool/mem_config/MemConfigBinTool.c:28-132 | over any list of hashed byte strings the running hash is 0 without a feature block since it was last 0, otherwise the hash seeded with 5381 of the strings since then, one after the other |
| `MemFeatHash.NoFeatureNoHash` | Platform/CIX/Sky1/PackageTool/mem_config/MemConfigBinTool.c:121-132 | without a feature block the running hash is 0 |
| `MemStoredHash.StoredHash` | Platform/CIX/Sky1/PackageTool/mem_config/MemConfigBinTool.c:121-132 | for every list the tool packs the word at byte 12 is the running hash over each block's copied part and what follows it in the buffer: zeros, or the quick config's own bytes where a wrapped copy has landed on them |
| `MemStoredHash.StoredMeaning` | Platform/CIX/Sky1/PackageTool/mem_config/MemConfigBinTool.c:28-132 | so the stored word is 0 without a feature block since the running hash was last 0, otherwise the hash seeded with 5381 of the bytes hashed since then |
| `MemStoredHash.StoredIsIntended` | Platform/CIX/Sky1/PackageTool/mem_config/MemConfigBinTool.c:111-132 | exactly when the stored word is the intended hash over zero-padded blocks, for blocks of any size: no feature block out of the cursor's reach is followed by quick config bytes worth more than zeros, or a later restart hides the difference |
| `MemStoredHash.StoredIsIntendedMeasured` | Platform/CIX/Sky1/PackageTool/mem_config/MemConfigBinTool.c:111-132 | for sizes of at least 9: if and only if it is not the case that the last block is an out-of-reach feature block and the quick config bytes from its size to byte 16 have a base-33 value that is no multiple of 2^32 |
| `MemStoredHash.ReachedIsIntended` | Platform/CIX/Sky1/PackageTool/mem_config/MemConfigBinTool.c:121-132 | whenever the cursor reaches every block, of whatever size, the stored word is the intended hash |
| `MemStoredHash.SpoiledExists` | Platform/CIX/Sky1/PackageTool/mem_config/MemConfigBinTool.c:111-132 | a list on which the stored word is not the intended hash: blocks of 65424 and 9 bytes over a quick config of ones |
| `MemFeatHash.DifferenceSurvives` | Platform/CIX/Sky1/PackageTool/mem_config/MemConfigBinTool.c:36-42 | once two lists' running hashes differ, equal later blocks leave them equal exactly when the hashes are 0 and 5381 where a later feature block begins |
| `MemHashChange.FeatureByteHidden` | Platform/CIX/Sky1/PackageTool/mem_config/MemConfigBinTool.c:97-132 | one byte of any feature block of any list the tool packs is changed, not one of its size field: the stored hash stays if and only if the byte is not hashed or a later feature block starts from the hashes 0 and 5381 |
| `MemHashChange.LastFeatureSensitive` | Platform/CIX/Sky1/PackageTool/mem_config/MemConfigBinTool.c:125-132 | in the last feature block: the stored hash changes if and only if the byte lies below the block's size and is not the checksum byte, although the recomputed checksum byte changes with it |
| `MemHashChange.UnhashedChange` | Platform/CIX/Sky1/PackageTool/mem_config/MemConfigBinTool.c:97-132 | changing the checksum byte of an input block, or a byte behind its size, leaves the whole written image the same |
| `MemHashMerge.EarlierByteHidden` | Platform/CIX/Sky1/PackageTool/mem_config/MemConfigBinTool.c:28-132 | a list of four feature blocks of which a hashed byte of the second can be changed without changing the stored hash, through two restarts of the running hash |
| `DoubleSum.Accumulators` | Platform/CIX/Sky1/PackageTool/pm_config/csupm_bin_config.c:46-56 | the loop with 32-bit accumulators and index computes the sum and the sum weighted n-i, both modulo 2^32, for every 4-aligned 32-bit length, and ends |
| `DoubleSum.DoubleCheckSum` | Platform/CIX/Sky1/PackageTool/pm_config/csupm_bin_config.c:46-70 | generate mode stores the plain sum modulo 2^32 in the upper half of the cell and the weighted one in the lower half, check mode accepts exactly when the cell holds them so, and no mode succeeds without a cell |
| `DoubleSum.SumsAppend` | Platform/CIX/Sky1/PackageTool/pm_config/csupm_bin_config.c:53-56 | composition: the weighted sum of a concatenation gains the length of the second part times the sum of the first |
| `DoubleSum.PackUnpack` | Platform/CIX/Sky1/PackageTool/pm_config/csupm_bin_config.c:58-65 | packing and the two casts that unpack are inverse |
| `SumDetection.TwoWordsMissed` | Platform/CIX/Sky1/PackageTool/pm_config/csupm_bin_config.c:53-56 | two words replaced at distance k go unnoticed exactly when the changes are opposite and k times the change is a multiple of 2^32 |
| `SumDetection.OddDistanceDetected` | Platform/CIX/Sky1/PackageTool/pm_config/csupm_bin_config.c:53-56 | no change of two words at odd distance, adjacent ones included, goes unnoticed |
| `SumDetection.EvenDistanceMissed` | Platform/CIX/Sky1/PackageTool/pm_config/csupm_bin_config.c:53-56 | at every even distance some change does |
| `SumDetection.SafeDistances` | Platform/CIX/Sky1/PackageTool/pm_config/csupm_bin_config.c:53-56 | so exactly the odd distances are safe, at every position of every image |
| `SumDetection.SwapMissed` | Platform/CIX/Sky1/PackageTool/pm_config/csupm_bin_config.c:53-56 | exchanging two words goes unnoticed exactly when distance times difference is a multiple of 2^32; unequal adjacent words never |
| `SealedImage.StoreChecksums` | Platform/CIX/Sky1/PackageTool/pm_config/csupm_bin_config.c:620-623 | the structure with both sums stored in words 4 and 5 |
| `SealedImage.SealBytesSeals` | Platform/CIX/Sky1/PackageTool/pm_config/csupm_bin_config.c:620-623 | those bytes, read as words, are the sealed image, and it verifies in the intended way |
| `SealedImage.SealedWords` | Platform/CIX/Sky1/PackageTool/pm_config/csupm_bin_config.c:620-623 | bytes 16 to 19 hold the plain sum of the words, bytes 20 to 23 the weighted one |
| `SealedImage.VerifiesIffSealed` | Platform/CIX/Sky1/PackageTool/pm_config/csupm_bin_config.c:544-623 | zeroing words 4 and 5 and comparing with what was stored accepts exactly the sealed images |
| `SealedImage.AdjacentTamper` | Platform/CIX/Sky1/PackageTool/pm_config/csupm_bin_config.c:544-623 | a change of two adjacent words anywhere, checksum words included, is rejected, with one family of exceptions given exactly: word 3 and crc1 change by the same d, and d times the number of words from word 3 on is a multiple of 2^32 |
| `SealedImage.CodedCheckAccepts` | Platform/CIX/Sky1/PackageTool/trustzone_config/trustzone_bin_config.c:211-213 | the check as coded, nothing zeroed and compared against 0, accepts a sealed image of n words exactly when 2*crc1+crc2 and (n-4)*crc1 are multiples of 2^32 |
| `SealedImage.CodedCheckOdd` | Platform/CIX/Sky1/PackageTool/trustzone_config/trustzone_bin_config.c:211-213 | for an odd number of words, as here, exactly when crc1 = crc2 = 0 |
| `TrustZone.ValidateConfig` | Platform/CIX/Sky1/PackageTool/trustzone_config/trustzone_bin_config.c:135-177 | returns 0 exactly for images with the right signature, versions, header version and length and a storage type other than 0xFF |
| `TrustZone.Generate` | Platform/CIX/Sky1/PackageTool/trustzone_config/trustzone_bin_config.c:222-307 | fails exactly when a configured block has a version other than 1, a length other than 12 or storage type 0xFF; otherwise the file is the sealed structure of the configured or the minimal block, followed by 0xFF up to 4096 bytes |
| `TrustZone.Parse` | Platform/CIX/Sky1/PackageTool/trustzone_config/trustzone_bin_config.c:186-219 | refuses files below 36 bytes, and exactly those others in which a byte of the signature at 12 or of the versions at 0 and 2 is wrong, byte 24 is not 1, byte 25 is not 12, or byte 27 is 0xFF; otherwise the checksum verdict is that of the coded check |
| `TrustZone.AcceptableBytes` | Platform/CIX/Sky1/PackageTool/trustzone_config/trustzone_bin_config.c:135-177 | what validation demands of a structure, byte by byte |
| `TrustZoneFile.HeaderInFile` | Platform/CIX/Sky1/PackageTool/trustzone_config/trustzone_bin_config.c:226-234 | versions 1 and 0, timestamp at 4, length 36 at 8, signature at 12, and 0xFF from byte 36 on |
| `TrustZoneFile.ConfigInFile` | Platform/CIX/Sky1/PackageTool/trustzone_config/trustzone_bin_config.c:236-248 | a configured block is in the file as it stands: its four bytes at 24, its address at 28, its size at 32; without one, bytes 24 to 35 are 1, 12 and ten zeros |
| `TrustZoneFile.ChecksumsInFile` | Platform/CIX/Sky1/PackageTool/trustzone_config/trustzone_bin_config.c:256-262 | the words at 16 and 20 are the sum of the other seven words and the sum in which they weigh 9, 8, 7, 6, 3, 2 and 1, modulo 2^32 |
| `TrustZoneFile.CodedCheckInNumbers` | Platform/CIX/Sky1/PackageTool/trustzone_config/trustzone_bin_config.c:211-213 | the coded check of nine words: their sum and the sum in which they weigh from 9 down to 1 are multiples of 2^32 |
| `TrustZone.PlainAcceptable` | Platform/CIX/Sky1/PackageTool/trustzone_config/trustzone_bin_config.c:250-254 | validation of a generated structure depends on three bytes of the configured block only |
| `TrustZoneLaws.PlainWords` | Platform/CIX/Sky1/PackageTool/trustzone_config/trustzone_export_config.h:65-75 | the generated structure as nine little-endian words |
| `TrustZoneLaws.GeneratedImage` | Platform/CIX/Sky1/PackageTool/trustzone_config/trustzone_bin_config.c:256-262 | every generated image verifies in the intended way, and the coded check accepts it exactly when both sums are zero |
| `TrustZoneLaws.GeneratedTamper` | Platform/CIX/Sky1/PackageTool/trustzone_config/trustzone_bin_config.c:256-262 | a generated image with two adjacent words changed verifies in the intended way if and only if the change flips the top bits of the signature and of crc1; none is accepted that leaves the signature alone |
| `TrustZoneLaws.ParseAcceptance` | Platform/CIX/Sky1/PackageTool/trustzone_config/trustzone_bin_config.c:181-262 | exact acceptance of the tool's own output: one timestamp at most, and only if the configured block satisfies a linear equation modulo 2^32 |
| `TrustZoneLaws.ShippedNeverPasses` | Platform/CIX/Sky1/PackageTool/trustzone_config/trustzone_bin_config.c:211-216 | with the block the repository ships, parse mode reports a failed checksum for every timestamp, although the image is intact |
| `TrustZoneLaws.SomethingPasses` | Platform/CIX/Sky1/PackageTool/trustzone_config/trustzone_bin_config.c:211-216 | a configured block and timestamp that do pass |
| `TrustZoneLaws.GenerateThenParse` | Platform/CIX/Sky1/PackageTool/trustzone_config/trustzone_bin_config.c:179-315 | generate mode followed by parse mode on the written file: nothing to parse exactly when the configured block is refused; otherwise always validated, and the verdict is the linear condition on the block |
| `FanTable.CheckRpmTable` | Platform/CIX/Sky1/PackageTool/pm_config/csupm_bin_config.c:400-412 | comparing neighbours decides that all three columns strictly increase between any two rows |
| `FanTable.CheckFanTable` | Platform/CIX/Sky1/PackageTool/pm_config/csupm_bin_config.c:414-443 | accepts, for any number of fans, exactly when each of them has an odd validity word, or an id that is odd or one of 0, 2 and 4 and three tables that are marked 1 or have 2 to 9 rows strictly increasing for all pairs |
| `FanTable.InvalidFanIgnored` | Platform/CIX/Sky1/PackageTool/pm_config/csupm_bin_config.c:420-422 | a fan whose validity word is odd can be dropped from any list without changing the result, whatever else it holds |
| `FanTable.FanIdRule` | Platform/CIX/Sky1/PackageTool/pm_config/csupm_bin_config.c:423-425 | of a fan that counts and is otherwise right, an id of value 2k is refused exactly for k of 3 or more, and an odd id never |
| `FanTable.FanRule` | Platform/CIX/Sky1/PackageTool/pm_config/csupm_bin_config.c:423-439 | a fan that counts is accepted exactly if its id is odd or below 6 and each of its tables is marked 1 or has 2 to 9 rows, every column rising from each row to the next |
| `FanTable.FanRow` | Platform/CIX/Sky1/PackageTool/pm_config/pm_export_config.h:97-113 | row k of mode m of a fan is read back from offset 10+36m+4k of its structure, signed temperatures included |
| `FanTable.FanScalars` | Platform/CIX/Sky1/PackageTool/pm_config/pm_export_config.h:103-113 | the scalar fields of a fan are read back from their offsets |
| `FanTable.FanRoundTrip` | Platform/CIX/Sky1/PackageTool/pm_config/pm_export_config.h:91-113 | wherever a fan's structure lies, reading it gives back every row of every mode table and every scalar |
| `OppTable.CheckOppTable` | Platform/CIX/Sky1/PackageTool/pm_config/csupm_bin_config.c:91-148 | accepts exactly the acceptable lists, and dereferences a null CPU domain exactly when one is reached before any check fails |
| `OppTable.AcceptedInNumbers` | Platform/CIX/Sky1/PackageTool/pm_config/csupm_bin_config.c:82-148 | a list is acceptable exactly if every sustained index is below its size and every size at most 13, domain 7 is there, and so are domains 2 to 6, each within 200 mV of domain 7 and with half its frequency at most that of domain 7 |
| `OppTable.FaultInNumbers` | Platform/CIX/Sky1/PackageTool/pm_config/csupm_bin_config.c:91-148 | the null domain is reached exactly if it is the first of domains 2 to 6 that fails these conditions, and all indices and domain 7 are right |
| `OppTable.EdgeOfAcceptance` | Platform/CIX/Sky1/PackageTool/pm_config/csupm_bin_config.c:123-145 | lists with CPU domains any number of mV below the DSU and any amount above twice its frequency: accepted exactly up to 200 and up to 1 |
| `OppTable.MissingCpuFaults` | Platform/CIX/Sky1/PackageTool/pm_config/csupm_bin_config.c:91-148 | leaving any one CPU domain out of an acceptable list makes the validator dereference null |
| `OppTable.NullCpuExists` | Platform/CIX/Sky1/PackageTool/pm_config/csupm_bin_config.c:91-148 | such a list exists: a DSU domain and no CPU domain |
| `OppTable.AcceptedCpus` | Platform/CIX/Sky1/PackageTool/pm_config/csupm_bin_config.c:123-145 | of an accepted list any two CPU sustained voltages differ by at most 400 mV, and no CPU frequency exceeds 2*DSU+1 |
| `OppTable.DumpOppConfig` | Platform/CIX/Sky1/PackageTool/pm_config/csupm_bin_config.c:181-218 | the dump lists, domain by domain, the entries stored in the section, each read inside its own table |
| `OppTable.DumpShowsList` | Platform/CIX/Sky1/PackageTool/pm_config/csupm_bin_config.c:186-217 | over a section holding a list whose sizes fit, the dump is safe and shows exactly that list's entries, null domains empty and unset ones skipped |
| `PmTool.Generate` | Platform/CIX/Sky1/PackageTool/pm_config/csupm_bin_config.c:535-648 | the first failing validator, in program order, decides the error, and disabled sections are not checked; if all pass the file is the sealed structure of exactly the enabled sections |
| `PmImage.PvtInNumbers` | Platform/CIX/Sky1/PackageTool/pm_config/csupm_bin_config.c:447-491 | the pvt section passes exactly if its thirteen weights add up to 1024 or byte 4 is not 0, and each sensor word is odd, or 0 before a register from 16 to 31, or 2 before a bus number up to 3 |
| `PmImage.GpioInNumbers` | Platform/CIX/Sky1/PackageTool/pm_config/csupm_bin_config.c:495-511 | the gpio section passes exactly if each of its words is odd or one of 2, 4 and 6 |
| `PmFile.HeaderInFile` | Platform/CIX/Sky1/PackageTool/pm_config/csupm_bin_config.c:538-544 | versions 3 and 1, timestamp at 4, length 3532 at 8, signature at 12 |
| `PmFile.SectionsInFile` | Platform/CIX/Sky1/PackageTool/pm_config/csupm_bin_config.c:546-618 | each of the nine plain sections that is enabled is in the file as configured: pmic at 24, pvt at 118, log at 3323, vmin at 3331, noc_idle at 3339, spt at 3359, wdt at 3399, opp_100M at 3403, gpio at 3407 |
| `PmFile.AbsentInFile` | Platform/CIX/Sky1/PackageTool/pm_config/csupm_bin_config.c:536-618 | each section that is disabled is 0xFF throughout |
| `PmFile.RestOfFile` | Platform/CIX/Sky1/PackageTool/pm_config/csupm_bin_config.c:536-648 | from byte 3419 on the file of 4096 bytes is 0xFF |
| `PmFile.SlotsInFile` | Platform/CIX/Sky1/PackageTool/pm_config/csupm_bin_config.c:582-594 | slot n of the opp section, at 153+212n: zeros for a null domain, 0xFF behind the end of the list or without the section |
| `PmFile.DomainInFile` | Platform/CIX/Sky1/PackageTool/pm_config/csupm_bin_config.c:582-594 | a domain of the list: its size, its sustained index, and entry j with level, voltage, frequency and power at 4+16j |
| `PmFile.FanInNumbers` | Platform/CIX/Sky1/PackageTool/pm_config/csupm_bin_config.c:560-566 | fan n at 2909+138n: validity, three marks and three item counts, and behind the tables id, sensor, polarity, margin and frequency |
| `PmFile.FanRowInNumbers` | Platform/CIX/Sky1/PackageTool/pm_config/csupm_bin_config.c:560-566 | row k of mode m at 10+36m+4k of it: the speed, and both temperatures modulo 256 |
| `PmFile.ChecksumsInFile` | Platform/CIX/Sky1/PackageTool/pm_config/csupm_bin_config.c:544-623 | the words at 16 and 20 are the plain and the weighted sum of the structure's words, modulo 2^32, with those two words zero |
| `PmTool.StoreDomains` | Platform/CIX/Sky1/PackageTool/pm_config/csupm_bin_config.c:584-593 | the section is marked valid, and each slot holds its structure or zeros for a null pointer |
| `PmLaws.FieldInFile` | Platform/CIX/Sky1/PackageTool/pm_config/csupm_bin_config.c:536-648 | no field of the structure is disturbed by what is stored after it: each is in the file at its offset as it was assembled, but for the two checksums |
| `PmLaws.FileTail` | Platform/CIX/Sky1/PackageTool/pm_config/csupm_bin_config.c:636-648 | behind the structure the 4096-byte file is 0xFF |
| `PmLaws.FileHeader` | Platform/CIX/Sky1/PackageTool/pm_config/csupm_bin_config.c:538-544 | versions, timestamp, length and signature are read back from the file |
| `PmLaws.AbsentSection` | Platform/CIX/Sky1/PackageTool/pm_config/pm_export_config.h:26-35 | in a disabled section every 32-bit value, at any position, decodes as invalid |
| `PmLaws.OppValidByte` | Platform/CIX/Sky1/PackageTool/pm_config/csupm_bin_config.c:584-585 | the validity byte of the opp section is 0 if the section is enabled and 0xFF otherwise |
| `PmLaws.FanInFile` | Platform/CIX/Sky1/PackageTool/pm_config/csupm_bin_config.c:560-566 | fan n of the configured list is read back whole from position 2909+138n of the generated file |
| `PmLaws.FanRowInFile` | Platform/CIX/Sky1/PackageTool/pm_config/csupm_bin_config.c:560-566 | so row k of mode m of fan n is read from 2909+138n+10+36m+4k |
| `PmLaws.GeneratedVerifies` | Platform/CIX/Sky1/PackageTool/pm_config/csupm_bin_config.c:620-623 | every generated structure verifies in the intended way |
| `PmLaws.GeneratedTamper` | Platform/CIX/Sky1/PackageTool/pm_config/csupm_bin_config.c:620-623 | and is rejected after any change confined to two adjacent words other than the pair just below crc1 and crc1 |
| `PmLaws.SignedTamper` | Platform/CIX/Sky1/PackageTool/pm_config/csupm_bin_config.c:620-623 | and after any change of two adjacent words that leaves the signature alone |
| `PmLaws.OneSectionLocal` | Platform/CIX/Sky1/PackageTool/pm_config/csupm_bin_config.c:546-618 | two runs whose inputs differ in one field write files that differ only there and in the checksums |
| `PmLaws.DumpOfGenerated` | Platform/CIX/Sky1/PackageTool/pm_config/csupm_bin_config.c:181-218 | dumping a generated file with an accepted list never leaves an opp table and shows exactly that list |
| `PmLaws.RowOfGenerated` | Platform/CIX/Sky1/PackageTool/pm_config/csupm_bin_config.c:181-218 | entry j of domain n is the row behind all entries of the domains before it, marked exactly if it is the sustained one, and there are no other rows |
| `PmLaws.DumpOfAbsent` | Platform/CIX/Sky1/PackageTool/pm_config/csupm_bin_config.c:186-189 | with the opp section disabled the dump is safe and empty |
| `SubImageTool.ParseBinaryFile` | Platform/CIX/Sky1/PackageTool/CixBiosReplaceSubImage.py:10-38 | no magic, a truncated table, or the records of the table with the default record behind them, exactly as the file says |
| `SubImageTool.IndexOf` | Platform/CIX/Sky1/PackageTool/CixBiosReplaceSubImage.py:71 | the first record equal to the target by value |
| `SubImageTool.SyncSize` | Platform/CIX/Sky1/PackageTool/CixBiosReplaceSubImage.py:68-73 | the selected record object gets the payload's length, every other object is unchanged, and the file's size field is patched unless the type is 0 |
| `SubImageTool.ReplaceImage` | Platform/CIX/Sky1/PackageTool/CixBiosReplaceSubImage.py:40-73 | the tool over file objects and mutable records, lookup after mutation included, ends as the replacement function says and leaves the file it says |
| `SubImageOutcome.EndsWithoutHeader` | Platform/CIX/Sky1/PackageTool/CixBiosReplaceSubImage.py:42-49 | an error without output exactly if neither 0x100000 nor 0x200000 carries AA 55 AA 55 |
| `SubImageOutcome.EndsWithShortTable` | Platform/CIX/Sky1/PackageTool/CixBiosReplaceSubImage.py:17-30 | an error without output exactly if the table at the first of the two that does runs past the end of the file |
| `SubImageOutcome.EndsWithoutType` | Platform/CIX/Sky1/PackageTool/CixBiosReplaceSubImage.py:51-53 | an error without output exactly if the table is whole, the type is not 0, and no stored record has it |
| `SubImageOutcome.EndsTooLarge` | Platform/CIX/Sky1/PackageTool/CixBiosReplaceSubImage.py:68-73 | an error after the output was written exactly if a stored record has the type, the type is not 0, and the payload has 2^32 bytes or more |
| `SubImageOutcome.EndsWell` | Platform/CIX/Sky1/PackageTool/CixBiosReplaceSubImage.py:40-73 | success in exactly the other cases |
| `SubImageOutcome.StoredReplaced` | Platform/CIX/Sky1/PackageTool/CixBiosReplaceSubImage.py:51-73 | for the first stored record of the type, at header + 16 + 16k: the payload at the offset in its second word, 0xFF behind it over the size in its third, which becomes the payload's length unless the type is 0; every other byte stays |
| `SubImageOutcome.DefaultReplaced` | Platform/CIX/Sky1/PackageTool/CixBiosReplaceSubImage.py:31-67 | for type 0 where none is stored: the payload at 0x10000, 0xFF behind it over 0x20000 bytes, and every other byte stays |
| `SubImageOutcome.TooLargeReplaced` | Platform/CIX/Sky1/PackageTool/CixBiosReplaceSubImage.py:61-73 | a payload that cannot be recorded is written all the same, its length is not |
| `SubImageEffect.ReplaceEffect` | Platform/CIX/Sky1/PackageTool/CixBiosReplaceSubImage.py:61-73 | every byte and the length of the output, for type 0 with a payload of any length and for other types with one below 2^32: size field, then payload, then 0xFF over the recorded size, then the input, zeros in a gap; beyond the larger of size and payload nothing changes |
| `SubImageEffect.TooLargeEffect` | Platform/CIX/Sky1/PackageTool/CixBiosReplaceSubImage.py:61-73 | a longer payload for another type is refused after its region has been written, with the size field untouched |
| `SubImageEffect.FittingFrame` | Platform/CIX/Sky1/PackageTool/CixBiosReplaceSubImage.py:61-73 | a fitting replacement inside the file keeps the length, leaves payload plus 0xFF in the region, the payload's length in the size field, and every other byte alone |
| `SubImageEffect.LookupAfterMutation` | Platform/CIX/Sky1/PackageTool/CixBiosReplaceSubImage.py:51-71 | looking the mutated record up by value finds it and no earlier one |
| `SubImageEffect.Reparse` | Platform/CIX/Sky1/PackageTool/CixBiosReplaceSubImage.py:10-73 | reparsing the output finds the same header and the same records, except that the selected record of a nonzero type has the payload's length |
| `SubImageLaws.LastWriteWins` | Platform/CIX/Sky1/PackageTool/CixBiosReplaceSubImage.py:51-73 | replacing with a and then b equals replacing with b alone if and only if, where a reaches beyond both the region and b, the input already held what the second step leaves there |
| `SubImageLaws.FittingLastWriteWins` | Platform/CIX/Sky1/PackageTool/CixBiosReplaceSubImage.py:51-73 | so the last write wins whenever the first payload fits, although the first step shrinks the recorded size |
| `SubImageLaws.Commute` | Platform/CIX/Sky1/PackageTool/CixBiosReplaceSubImage.py:40-73 | replacements of two types commute, size patches included, if and only if they write the same bytes wherever both regions are written |
| `SubImageExamples.OversizedPayloadShows` | Platform/CIX/Sky1/PackageTool/CixBiosReplaceSubImage.py:61-73 | an image on which a payload one byte longer than its region leaves a 0xFF behind it that a later, fitting payload alone would not |
| `SubImageExamples.OversizedPayloadSurvives` | Platform/CIX/Sky1/PackageTool/CixBiosReplaceSubImage.py:61-73 | an image on which a payload one byte longer than the default record's region is still there after a later, smaller one |
| `SubImageExamples.OverlapDoesNotCommute` | Platform/CIX/Sky1/PackageTool/CixBiosReplaceSubImage.py:61-73 | and on which two fitting payloads for types whose regions share a byte do not commute |
| `SubImageRuns.RunResult` | Platform/CIX/Sky1/PackageTool/CixBiosReplaceSubImage.py:40-73 | after any run of fitting replacements on a well-laid image every step has succeeded, each region holds its last payload followed by 0xFF up to the original size, table and size fields tell its length, and nothing else has changed |
| `SubImageRuns.RunDependsOnLast` | Platform/CIX/Sky1/PackageTool/CixBiosReplaceSubImage.py:40-73 | a run's output depends on the last payload of each type only: superseded steps can be dropped and types reordered |
| `SubImageCover.AnyRun` | Platform/CIX/Sky1/PackageTool/CixBiosReplaceSubImage.py:40-73 | after any run whose steps write clear of magic and table, whatever the payload lengths and overlaps, every step has succeeded, the table and size fields tell the last payloads' lengths, every other byte is the one left by the latest step that reaches it, or the input's, or a zero in a gap, and the file ends at the farther of the input's end and the farthest byte reached |

## Left out

- MemPacker.Pack: lists of 256 and more blocks, and lists whose table offsets pass 65535, are excluded, because the source then writes behind the table or the buffer it has allocated; blocks that partly overlap in memory are not modelled (shared ones are).
- MemPacker.Pack: a block whose size field is larger than its buffer is excluded, because the source then reads behind it.
- MemBoundary.PackedChecks: asks that every size takes in the checksum byte (at least 11); of a shorter block the checksum is not copied.
- MemHashChange.LastFeatureSensitive: a change of the size field is left out, since it changes which bytes are hashed and where every later block lies.
- OppTable.CheckOppTable: lists of fewer than eight domains are excluded, because the source reads the eighth; lists of more than thirteen are excluded from `PmTool.Generate`, because their copies run into the next section.
- DoubleSum.DoubleCheckSum: lengths that are no multiple of 4 are excluded; the source asserts against them.
- SubImageRuns.RunResult: steps whose payload does not fit its region are outside this lemma; `SubImageCover.AnyRun` covers them.
- SubImageCover.AnyRun: steps that write over the table or the probed magic are outside it.
- SubImageEffect.Reparse: asks that the written range stays clear of the table and of the probed magic; a flash layout that lets a sub-image overlap the table is not modelled further.
- `check_pvt_config`, `check_board_sensor` and `check_gpio_config` are conditions on the section bytes without results of their own.
- Reading and writing files, printing, argument parsing and exit codes; a file is a byte sequence and an error is a result value.
- Timestamps and `CixEpoch`: the timestamp is an arbitrary 32-bit value.
- The text the `dump_*` functions print, other than the rows of the opp dump; parse mode of the power-management tool, which only prints.
- Board data (`default`, `RS600`, `user_config.h`, `pmic_config.h`), except the shipped TrustZone block; `private_pem_convert_public_hash.py`, build scripts, and the headers and binary stubs of the other platforms.
