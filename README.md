# PFS archive codec, modelled in Dafny

This project models the codec at the heart of `pfs-util`, a tool for PFS
archives. A PFS archive is a single binary file. It holds a small header, an
index of entry records and an offset table, followed by the entries' payloads.
For version `'8'` the payloads are XOR-ciphered with a 20-byte key. That key
is the SHA-1 digest of the index block.

The model has three parts, following the three core source files:

- `archive.dfy` (module `Archive`) covers `src/pfs/archive.rs`.
  - The entity record and the archive, with `info_size`, `file_name_size` and `new`.
  - The parser `from_file`, written twice. `ParseArchive` is a function of the file's bytes. `FromFile` uses a `Reader` class whose cursor it advances the way the source's `BufReader` does, and is proved equal to `ParseArchive`.
- `pack.dfy` (module `Packer`) covers `src/pfs/pack.rs`.
  - Specification functions give every part of the packed image as a function of the entries: prologue, count, records, offset table and ciphered payloads.
  - Methods write that image the way `pack` does: a `Writer`, an in-memory writer per record, a `Hasher` fed along the way, and the u32 overflow checks.
  - `entity_from` is modelled on an abstract view of the input path (`Node`).
- `unpack.dfy` (module `Unpacker`) covers `src/pfs/unpack.rs`.
  - The choice of the target folder, the dry run and the not-a-folder check.
  - The entry loop, which seeks, reads `size` bytes and deciphers into a preallocated `array`.
  - The file system is seen through three parameters: what the target path holds, the archive file's bytes, and whether each `fs::write` succeeds.

Supporting modules:

- `bytes.dfy`: bytes, u32, and little-endian `to_le_bytes` / `from_le_bytes`.
- `outcomes.dfy`: `Ok` / `Err` / panic outcomes. A panic is kept apart from `Err` and carries a reason. There is one reason each for:
  - an entry name, the index block or a payload read cut short;
  - a missing file stem, parent or file name;
  - a file too big for a u32;
  - the `todo!`.
  
  Every u32 addition and multiplication in the packer, and every checked conversion of an offset, a position or `table_pos`, shares the one reason `ArithmeticOverflow`. The panics the model does not reach are listed under "Left out".
- `cipher.dfy`: the cyclic XOR cipher and the all-zero key. SHA-1 (FIPS 180-4) is a parameter `sha1: HashFn` whose only known property is its 20-byte result.
- `paths.dfy`: the parts of Rust's Unix `std::path` that the code uses (`file_name`, `file_stem`, `join`, `parent`).
- `roundtrip.dfy` (module `RoundTrip`): what parsing a packed image gives back, and the end-to-end round trip of `pack`, `from_file` and `unpack`.

Some behaviours of the code differ from what a reader of the format would expect. The model follows the code:

- **Content offsets.** One would expect every entry's `content_offset` to be where its payload begins. The code's counter also charges the records of the entries before it. So only entry 0's offset is its payload start (`Packer.OffsetIsPayloadStartOnlyForFirst`). Only single-file packing exists (the directory branch is `todo!`), so no archive the code can produce has a second entry.
- **Colliding directories.** The check at `src/pfs/unpack.rs:54-57` tests `target_folder.is_dir()`, not the entry's parent. By then the target folder is a directory, so the check never fails, and the model has no such error. This has two consequences:
  - When the entry's own parent exists but is a file, extraction goes on: `fs::write` fails, which is non-fatal and modelled by `writeOk`.
  - When a directory higher up is a file, the parent does not exist, and `fs::create_dir_all(..).unwrap()` (`src/pfs/unpack.rs:59`) panics and stops extraction. That panic is not modelled; see the `create_dir_all` and `src/pfs/unpack.rs:54-57` lines under "Left out".
- **Per-entry read errors.** Only a failed `fs::write` is non-fatal while extracting one entry. A short read panics (`read_exact(..).unwrap()`) and is modelled as `Panic(PayloadReadShort)`. A seek past the end succeeds.
- **Names with a backslash.** `from_file` turns every `\` of a name into `/` (`src/pfs/archive.rs:119`), and `join` then treats the name as a path (`src/pfs/unpack.rs:50`). So a packed name `a\b` is extracted to `folder/a/b`, and a name that starts with `\` becomes absolute and replaces the target folder altogether. `Unpacker.Extract` models this through `Paths.Join`. The round-trip lemmas therefore require a name without a backslash.
- **Invalid UTF-8 names.** An entry name that is not UTF-8 makes the parser panic (`from_utf8(..).unwrap()`) rather than return an error. Names are modelled as bytes, so this drops out.

## Model

| member | source | states |
|---|---|---|
| Bytes.EncodeU32 | src/pfs/pack.rs:48 | `to_le_bytes` gives exactly four bytes that `from_le_bytes` decodes back to the value |
| Bytes.EncodeDecode | src/pfs/archive.rs:171 | every four bytes are the little-endian encoding of the u32 they decode to, so the encoding is unique |
| Bytes.DecodeU32 | src/pfs/archive.rs:171 | `from_le_bytes`: the low byte of the value is the first byte, and the rest of the value is the other three bytes, little-endian |
| Bytes.Zeros | src/pfs/pack.rs:65 | `[0_u8; n]` is `n` bytes, all zero |
| Cipher.ZeroKey | src/pfs/archive.rs:135 | the default key is 20 zero bytes |
| Cipher.Xor | src/pfs/pack.rs:107-108 | the cipher keeps the length, and byte `i` of the result is byte `i` of the data XOR key byte `i % key.len()` |
| Cipher.XorByte | src/pfs/unpack.rs:72-74 | a byte XOR a byte is a byte, and a zero key byte leaves the data byte unchanged |
| Cipher.XorInvolutive | src/pfs/pack.rs:107-108 | the cipher keeps the payload's length, and applying it twice with the same key gives the original bytes back, so unpacking inverts packing |
| Cipher.ZeroKeyIsIdentity | src/pfs/archive.rs:135-152 | with the all-zero key of versions 2 and 6 (and of `new`), the cipher leaves every payload unchanged |
| Cipher.XorBits | src/pfs/unpack.rs:73 | the bitwise XOR of two `n`-bit values is an `n`-bit value, so a byte XOR a byte is a byte |
| Cipher.XorBitsBit | src/pfs/unpack.rs:73 | `XorBits` is exclusive or: each of the low `n` bits of the result is 1 exactly when the operands' bits at that place differ |
| Cipher.XorBitsCommutes | src/pfs/unpack.rs:73 | `a ^ b == b ^ a` |
| Cipher.XorByteExample | src/pfs/pack.rs:108 | `0xF0 ^ 0x3C == 0xCC` |
| Cipher.XorBitsTwice | src/pfs/unpack.rs:73 | `(a ^ b) ^ b == a` for every value of at most `n` bits |
| Archive.VersionOf | src/pfs/archive.rs:96-107 | a version is recognised exactly for the bytes `'2'`, `'6'` and `'8'`, and it is version 8 exactly for `'8'` |
| Archive.FileNameSize | src/pfs/archive.rs:44-46 | the name's byte length when that fits a u32, and 0 otherwise |
| Archive.InfoSize | src/pfs/archive.rs:32-46 | an entry adds 0 to `info_size` when its name is empty, and also when its length does not fit a u32 (`file_name_size` is then 0); otherwise it adds 16 plus the name's byte length |
| Archive.New | src/pfs/archive.rs:60-66 | a new archive keeps the given filename, has no entries and has an all-zero key |
| Archive.Normalize | src/pfs/archive.rs:119 | every backslash becomes a slash and every other byte is kept, so the length is kept and no backslash remains |
| Archive.NormalizeKeeps | src/pfs/archive.rs:119 | a name without backslashes is left unchanged |
| Archive.TruncU32 | src/pfs/archive.rs:128 | a stream position that fits a u32 is kept as is, and one of 2^32 or more becomes 0 |
| Archive.VersionByte | src/pfs/archive.rs:90-96 | the version byte is byte 2 of the file; when the file is exactly the magic, `read` fills nothing and the buffer keeps `'p'` (0x70), which is no version |
| Archive.ReadU32At | src/pfs/archive.rs:162-172 | `read_u32` succeeds exactly when four bytes remain, and returns the u32 they encode little-endian; otherwise it returns `Err` (a short read), not a panic |
| Archive.ReadU32 | src/pfs/archive.rs:162-172 | the cursor version fails or decodes exactly as `ReadU32At` does, and on success advances the cursor by four |
| Archive.ParseEntry | src/pfs/archive.rs:115-131 | one record: `Err` when `name_len` or a later u32 field is cut short; a panic exactly when the name runs past the end; on success the cursor advances by at least 16 and the name has no backslash |
| Archive.ParseEntryFields | src/pfs/archive.rs:116-131 | a parsed entry's name is the normalised `name_len` bytes after the length field; its position is the stream offset right after the name (the skip field); its offset and size are the second and third u32 after that point |
| Archive.ReadEntry | src/pfs/archive.rs:115-131 | reading one record through the cursor gives the entry and the cursor after it that `ParseEntry` gives, or the same failure |
| Archive.ParseEntries | src/pfs/archive.rs:113-132 | on success the loop yields exactly `count` entries, with no backslash in any name, and moves the cursor by at least 16 per entry |
| Archive.ParseEntriesStep | src/pfs/archive.rs:115-132 | one more turn appends the entry parsed at the cursor where the previous turns stopped, or fails as that record fails |
| Archive.ParseEntriesFailureSticks | src/pfs/archive.rs:116-123 | the first failing record ends the loop: every longer run fails the same way |
| Archive.ParseEntriesPrefix | src/pfs/archive.rs:113-132 | the entries come out in stream order: entry `i` is the record parsed where the first `i` turns stopped, and the first `i` entries are the result of those `i` turns |
| Archive.ReadEntries | src/pfs/archive.rs:113-132 | the `for` loop that pushes into `infos` gives the entries and final cursor of `ParseEntries`, or its failure |
| Archive.ParseHeader | src/pfs/archive.rs:76-110 | `Err` when the first two bytes are missing or are not `70 66`; `Err("Invalid file version")` when the version byte is not `'2'`, `'6'` or `'8'`; `Err` from `read_u32` when a known version is followed by fewer than 8 bytes; on success the version, `info_size` and `file_count` are decoded from bytes 2, 3-6 and 7-10 |
| Archive.ReadHeader | src/pfs/archive.rs:76-110 | the header reads through the cursor give the result of `ParseHeader`, also on a file cut short after the magic, and leave the cursor at 11 |
| Archive.ArchiveKey | src/pfs/archive.rs:134-152 | 20 zero bytes unless the version is `'8'`; for `'8'` the digest of the `info_size` bytes from offset 2+1+4 = 7; a panic exactly when `info_size` > 0 and those bytes are not all there, while an empty index block is digested even past the end of the file |
| Archive.ReadKey | src/pfs/archive.rs:134-152 | seeking back to offset 7 and reading the index block through the cursor gives the key of `ArchiveKey`, or the same panic |
| Archive.ParseArchive | src/pfs/archive.rs:68-159 | `from_file`'s errors for a short file, a wrong magic, an unknown version and a header cut short after a known version; on success the filename is kept, there are exactly `file_count` entries and none has a backslash in its name, and the key is the digest of the `info_size` bytes from offset 7 for version `'8'` and all zero otherwise |
| Archive.FromFile | src/pfs/archive.rs:68-159 | the cursor-driven `from_file` returns exactly what `ParseArchive` gives for the file's bytes |
| Archive.Reader.ReadExact | src/pfs/archive.rs:118 | `read_exact` yields the next `n` bytes and moves the cursor past them, or fails when fewer remain |
| Archive.Reader.Read | src/pfs/archive.rs:90 | `read` yields what is left of the next `n` bytes and moves the cursor past what it yields |
| Archive.Reader.StreamPosition | src/pfs/archive.rs:120 | `stream_position` is the cursor |
| Archive.Reader.Seek | src/pfs/archive.rs:140-142 | seeking to `p` sets the cursor to `p` |
| Paths.FileName | src/pfs/pack.rs:127 | `file_name` gives a plain name (not empty, not `.` or `..`, no `/`) exactly when the path's last component is one |
| Paths.FileStem | src/pfs/unpack.rs:13-15 | `file_stem` exists exactly when `file_name` does, and is the file name without its final extension |
| Paths.Stem | src/pfs/unpack.rs:13-15 | the stem is a prefix of the name; it is the whole name exactly when no `.` follows the first byte; otherwise it is cut at the last `.` |
| Paths.Join | src/pfs/unpack.rs:50 | `join` replaces the base with an absolute path, and otherwise appends the path, with a `/` between unless the base is empty or already ends with one |
| Paths.JoinPlain | src/pfs/unpack.rs:50 | joining a plain name onto any folder makes that name the file name of the result |
| Paths.NoParent | src/pfs/unpack.rs:53 | the empty path and the root have no parent, which makes `parent().unwrap()` panic |
| Paths.JoinPlainHasParent | src/pfs/unpack.rs:53 | a path joined from a plain name always has a parent |
| Packer.EntityFrom | src/pfs/pack.rs:119-136 | `NotFound` exactly for a missing path; a panic without a file name or for a file too big for a u32; otherwise an entry named after the path's last component, with the file's length as its size and zero offset and position |
| Packer.HeaderInfoSize | src/pfs/pack.rs:21-37 | the header's `info_size` is at least 20 + 8 · `file_count` |
| Packer.RecordedOffset | src/pfs/pack.rs:39-68 | the counter at entry `i` is at least `info_size` + 7 + 16 per earlier record |
| Packer.Position | src/pfs/pack.rs:64 | entry `i`'s position lies past the prologue, the count, the earlier records, its own name length field and its name |
| Packer.TablePos | src/pfs/pack.rs:76-91 | `table_pos` is the offset table's start within the index block: after the 4-byte count and the records |
| Packer.Fits | src/pfs/pack.rs:22-91 | when `info_size`, every offset and position and `table_pos` fit a u32, so does the number of entries |
| Packer.AddU32 | src/pfs/pack.rs:22-37 | a u32 addition succeeds exactly when the sum fits, and otherwise is the debug-mode overflow panic |
| Packer.MulU32 | src/pfs/pack.rs:33 | a u32 multiplication succeeds exactly when the product fits, and otherwise panics |
| Packer.ComputeHeader | src/pfs/pack.rs:18-37 | the loop and the fixed additions give `file_count` = the number of entries and `info_size` = Σ entry `info_size` + 20 + 8 · `file_count`, or the overflow panic when that does not fit a u32 |
| Packer.SumInfoSizesIsMetaLen | src/pfs/pack.rs:21-24 | when every name is non-empty, the entries' `info_size`s add up to the length of their records |
| Packer.InfoSizeIsIndexLength | src/pfs/pack.rs:29-37 | when every name is non-empty, `info_size` is exactly the length of the bytes written from `file_count` through `table_pos` |
| Packer.Record | src/pfs/pack.rs:62-67 | a record is 16 bytes plus the name |
| Packer.RecordLayout | src/pfs/pack.rs:62-67 | a record is, in order: `name_len` little-endian, the name bytes, 4 zero bytes, `offset` little-endian, `size` little-endian |
| Packer.Records | src/pfs/pack.rs:58-73 | the records of the first `k` entries are as long as their sizes add up to |
| Packer.Assign | src/pfs/pack.rs:61-64 | the record loop sets an entry's offset to the counter and its position to the offset of the record's zero placeholder, and keeps its path, name and size |
| Packer.AssignedOffsets | src/pfs/pack.rs:39-68 | entry 0's offset is `info_size` + 7, and each later entry's offset is the previous one + 16 + the previous name's length + the previous size |
| Packer.RecordedOffsetSplit | src/pfs/pack.rs:39-68 | entry `i`'s offset is where its payload would start plus the length of the `i` records before it |
| Packer.OffsetIsPayloadStartOnlyForFirst | src/pfs/pack.rs:39-68 | an entry's recorded offset is the start of its payload exactly when it is entry 0 |
| Packer.PositionIsPlaceholder | src/pfs/pack.rs:64 | in the packed image, every entry's position is the absolute offset of its record's zero placeholder, and the four bytes there are zero |
| Packer.WriteRecord | src/pfs/pack.rs:60-72 | one turn of the record loop: it fails exactly when the offset or the position does not fit a u32; otherwise it sets them, writes the record to the file and the hasher, and moves the counter past the record and the payload |
| Packer.AssignNext | src/pfs/pack.rs:59-73 | turn `i` of the record loop, stated for the whole entry list: it panics exactly when entry `i` does not fit; otherwise it assigns entry `i` and appends that entry's record to the writer and the hasher |
| Packer.ProgressComplete | src/pfs/pack.rs:59-73 | a finished record loop has assigned every entry |
| Packer.WriteRecords | src/pfs/pack.rs:59-73 | the record loop succeeds exactly when every entry's offset and position fit a u32; then every entry is updated in place, and the records are appended, in entry order, to both the file and the hasher |
| Packer.OffsetTable | src/pfs/pack.rs:76-92 | the offset table is 16 bytes plus 8 per entry |
| Packer.WriteTableEntries | src/pfs/pack.rs:82-85 | one pair per entry, in entry order: its position less `ref_pos`, then four zero bytes |
| Packer.WriteOffsetTable | src/pfs/pack.rs:76-97 | writes `file_count + 1`, the pairs, 8 zero bytes and `table_pos`, to both the file and the hasher; panics exactly when `table_pos` does not fit a u32 |
| Packer.TableSelfOffsetLocatesTable | src/pfs/pack.rs:77-92 | `table_pos` is where the offset table starts within the index block (so at `table_pos` + 7 in the file), and the table's last four bytes encode it |
| Packer.Prologue | src/pfs/pack.rs:45-48 | the file begins with `70 66 38` and then the four little-endian bytes of `info_size` |
| Packer.IndexBlock | src/pfs/pack.rs:54-97 | the index block, the hasher's whole input, is 4 bytes of count, the records, and 16 + 8 per entry of offset table |
| Packer.PrologueBytes | src/pfs/pack.rs:45-56 | the packed image begins with `70 66 38` and `info_size`, and the index block (the hasher's input) starts at `ref_pos` = 7 |
| Packer.WritePrologue | src/pfs/pack.rs:39-48 | writes magic, version and `info_size`; the counter then stands at `info_size` + 3 |
| Packer.WriteIndex | src/pfs/pack.rs:50-97 | writes `file_count`, the records and the offset table after `info_size`, and feeds exactly those bytes to the hasher in the same order; panics exactly when something does not fit a u32 |
| Packer.Hasher.Finalize | src/pfs/pack.rs:99 | the key is the digest of everything fed to the hasher |
| Packer.Hasher.Update | src/pfs/pack.rs:56 | `update` appends its bytes to what the hasher has been fed |
| Packer.Writer.Write | src/pfs/pack.rs:55 | `write` on the file takes the whole slice and returns its length |
| Packer.Writer.WriteAll | src/pfs/pack.rs:71 | `write_all` appends its bytes to the file |
| Packer.Writer.StreamPosition | src/pfs/pack.rs:51 | `stream_position` is the number of bytes written so far |
| Packer.CipherPayload | src/pfs/pack.rs:103-109 | the pushed `final_data` is the source bytes with byte `idx` XOR `hash_key[idx % 20]` |
| Packer.WritePayloads | src/pfs/pack.rs:101-112 | the ciphered payloads are appended in entry order |
| Packer.PayloadsStep | src/pfs/pack.rs:101-112 | the payloads of the first `i` + 1 entries are those of the first `i` followed by entry `i`'s ciphered content |
| Packer.WriteArchive | src/pfs/pack.rs:18-114 | when every u32 fits, the file holds exactly the packed image (prologue, index block, payloads ciphered with the digest of the index block); otherwise it panics on overflow |
| Packer.PackedImage | src/pfs/pack.rs:39-112 | the packed file is as long as the prologue, the index block and the ciphered payloads together |
| Packer.PackOutput | src/pfs/pack.rs:7-117 | a directory input reaches the `todo!` panic |
| Packer.Pack | src/pfs/pack.rs:7-117 | `pack` ends with `PackOutput`: the `todo!` for a directory, the failures of `entity_from`, the overflow panic, or the packed image of the one entry |
| Unpacker.TargetFolder | src/pfs/unpack.rs:10-20 | the caller's target when one is given; otherwise the stem of the archive's file name, and a panic when it has none |
| Unpacker.TargetIsStem | src/pfs/unpack.rs:10-20 | an archive `dir/base.ext` (extension without `.`) unpacks into the folder `base` |
| Unpacker.PayloadInStream | src/pfs/unpack.rs:67-68 | the seek and `read_exact` of an entry succeed when its payload lies within the file, and only if its size is at most the file's length |
| Unpacker.Payload | src/pfs/unpack.rs:62-68 | the bytes read for an entry are exactly `size` bytes, taken from absolute offset `offset` |
| Unpacker.Extract | src/pfs/unpack.rs:50-79 | one entry panics without a parent path or when its payload is not in the file; otherwise it writes to folder/name the deciphered payload, which is `size` bytes long and ciphers back to the bytes read |
| Unpacker.Decipher | src/pfs/unpack.rs:62-74 | the preallocated `final_data`, filled index by index, is the buffer with byte `idx` XOR `key[idx % key.len()]` |
| Unpacker.ExtractEntry | src/pfs/unpack.rs:50-79 | seeking, reading and deciphering through the archive file's cursor gives `Extract`'s write or its panic |
| Unpacker.Turns | src/pfs/unpack.rs:49 | one turn per entry, in the archive's order |
| Unpacker.Run | src/pfs/unpack.rs:49-82 | the loop writes one file per successful turn, in order; it returns `Ok` exactly when every turn succeeds, and otherwise stops at the first failing turn with that turn's failure |
| Unpacker.RunStep | src/pfs/unpack.rs:49-80 | after successful turns, one more turn appends its write or ends the loop with its failure |
| Unpacker.RunFailureSticks | src/pfs/unpack.rs:49-80 | once a turn fails, later turns change neither the outcome nor the writes |
| Unpacker.RunAlike | src/pfs/unpack.rs:49-80 | two loops whose turns fail at the same places with the same failures end alike and write the same number of files |
| Unpacker.WritesDoNotStopTheLoop | src/pfs/unpack.rs:76-82 | whether `fs::write` succeeds does not change the outcome, or the paths and bytes of the files written |
| Unpacker.UnpackOutput | src/pfs/unpack.rs:8-83 | a dry run returns `Ok` and writes nothing; a target that exists but is not a folder gives `Err` and no writes; `Err` occurs only then; at most one file per entry is written |
| Unpacker.Unpack | src/pfs/unpack.rs:8-83 | `unpack` returns exactly the outcome and the writes of `UnpackOutput` |
| Unpacker.ExtractAll | src/pfs/unpack.rs:47-82 | the entry loop over one cursor returns the outcome and the writes of `Run` over the entries' turns |
| RoundTrip.ParseRecord | src/pfs/archive.rs:115-131 | the parser reads a record written by the packer back as its name (normalised), its placeholder position, its offset and its size |
| RoundTrip.EntriesOfRecords | src/pfs/archive.rs:113-132 | in a packed image the entry loop reads back every record, in order, and stops at the end of the records |
| RoundTrip.HeaderOfImage | src/pfs/pack.rs:45-56 | parsing a packed image's header gives version 8, the packer's `info_size` and the number of entries |
| RoundTrip.HeaderOfBytes | src/pfs/archive.rs:76-110 | a file that begins with `70 66 38` and two little-endian words has version 8 and those words as `info_size` and `file_count` |
| RoundTrip.KeyOfImage | src/pfs/archive.rs:140-150 | when every name is non-empty, the parser's key for a packed image is the digest of the index block, the packer's `hash_key` |
| RoundTrip.ParsePacked | src/pfs/archive.rs:68-159 | a packed image parses to the given filename, the packer's entries (names normalised, positions and offsets as assigned, path empty) and the packer's key |
| RoundTrip.PayloadsHead | src/pfs/pack.rs:101-112 | the payloads begin with the first entry's ciphered content |
| RoundTrip.FirstPayload | src/pfs/unpack.rs:62-68 | in a packed image, the `size` bytes at entry 0's recorded offset are its ciphered content |
| RoundTrip.SingleEntryFits | src/pfs/pack.rs:18-91 | one entry with a non-empty name packs without overflow exactly when its name is shorter than 2^32 − 51 bytes |
| RoundTrip.PackOverflows | src/pfs/pack.rs:7-117 | for an existing file that fits a u32, `pack` panics on overflow exactly when the name has 2^32 − 51 bytes or more, and succeeds otherwise |
| RoundTrip.PackedSingle | src/pfs/pack.rs:7-117 | a successful `pack` packed one entry, named after the input path, with the file's length as its size |
| RoundTrip.ExtractFirst | src/pfs/unpack.rs:50-79 | unpacking the entry of a one-entry packed image writes to folder/name exactly the original content |
| RoundTrip.UnpackOne | src/pfs/unpack.rs:49-82 | with one entry and a usable folder, `unpack` succeeds and writes that entry's file |
| RoundTrip.UnpackPacked | src/pfs/unpack.rs:8-83 | a one-entry packed image parses, and unpacking it writes exactly the original content under the entry's name |
| RoundTrip.ParseSingle | src/pfs/archive.rs:68-159 | a one-entry packed image parses to exactly that entry, as the parser reads it back, with the packer's key |
| RoundTrip.UnpackSingle | src/pfs/unpack.rs:8-83 | unpacking that parsed archive into a usable folder succeeds and writes exactly the original content at folder/name |
| RoundTrip.PackThenUnpack | src/pfs/pack.rs:7-117 | when `pack` succeeds on a file whose name has no backslash, `from_file` parses its output and `unpack` succeeds, writing exactly one file: the original content at folder/name |
| RoundTrip.PackThenUnpackDefault | src/pfs/unpack.rs:10-20 | with no target given, `unpack` of what `pack` wrote writes the original content at stem/name, the stem being that of the archive's file name |

## Left out

- File system effects are parameters or left out:
  - `File::open` / `File::create` and their failures, `metadata`, and `read_to_end` are left out.
  - `fs::create_dir(_all)` is left out.
  - `exists` / `is_dir` are the `PathKind` parameter.
  - `fs::write` is the `writeOk` parameter.
  - The archive file's bytes are the `stream` parameter.
  - The `unwrap` panics on opening and on directory creation are not modelled.
- These panics are not modelled:
  - opening the archive (`src/pfs/archive.rs:69-73`, `src/pfs/unpack.rs:41-45`);
  - `metadata` (`src/pfs/pack.rs:126`);
  - `create_dir` and `create_dir_all` (`src/pfs/unpack.rs:38`, `src/pfs/unpack.rs:59`);
  - `flush().expect(..)` (`src/pfs/pack.rs:114`);
  - the `to_str` and `from_utf8` unwraps (`src/pfs/pack.rs:127,130`, `src/pfs/unpack.rs:17,24,35,56`, `src/pfs/archive.rs:119`).
- The `seek` and `stream_position` unwraps (`src/pfs/archive.rs:120,140-142`, `src/pfs/unpack.rs:67`) are not modelled as panics either. On a seekable file they do not fail.
- Printing (`println!`, `print!`) is left out; it has no effect on results.
- SHA-1 internals are left out: a foreign crate, taken as a parameter with a 20-byte result.
- UTF-8 validation of names (`src/pfs/archive.rs:119`) and `to_str` conversions are left out. Names are byte sequences, and `\` is replaced byte by byte, which for valid UTF-8 is the same as the character replacement.
- Directory packing is left out: it is `todo!` in the source (`src/pfs/pack.rs:12`). It is modelled as `Panic(Unimplemented)`, so only single-entry packing is modelled end to end.
- `usize` and `u64` conversions are left out; they never fail on a 64-bit target. The `u32::try_from(..).unwrap()` calls that can fail are modelled as panics.
- Packer.WriteRecord: takes `memory_writer.buffer().len()` (line 64) as the length of the record bytes written so far. Rust's `BufWriter` stops buffering once a single write exceeds its capacity (8 KiB), and then `buffer()` is shorter. The name starts 4 bytes into the record, so for names longer than 8188 bytes the source records a smaller position than the model.
- Archive.InfoSize: returns 16 + the name length as an unbounded number. The u32 addition at `src/pfs/archive.rs:41` overflows (a debug-mode panic) only for names within 16 bytes of 2^32; that case is not modelled, and the pack-side overflow checks cover every entry that `pack` can produce.
- Packer.ComputeHeader: the overflow checks are the debug-build panics. A release build would wrap around instead; wrap-around is not modelled.
- The check at `src/pfs/unpack.rs:54-57` tests the target folder rather than the entry's parent, which is a directory by then. It can never fail, so it is left out. An intermediate directory that is a file is not modelled: it fails the entry's `fs::write` (the `writeOk` parameter) or panics in `create_dir_all`.
- The round trip is proved for the single-entry archives that `pack` can write. For several entries the recorded offsets of entries after the first are not their payload starts (`Packer.OffsetIsPayloadStartOnlyForFirst`), so a multi-entry round trip is not proved in general. One holds only in special cases, such as when every later entry has size 0.
- Archive.Reader.Seek: requires a target within the file. Seeking past the end, which Rust allows, is handled by its callers. `ExtractEntry` reads nothing there, which succeeds only for a size of 0. `ReadKey` does the same: the read panics when `info_size > 0` and succeeds when it is 0. `from_file` never gets there, because a file shorter than 7 bytes fails in the header first.
- Extraction writes are recorded as a list of `FileWrite`s; replacing an existing file's contents is not modelled beyond that.
