/** src/pfs/archive.rs: the PFS header and entry records, the in-memory
    archive, and the parser that reads an archive's index from its bytes.

    Layout read here (all integers u32 little-endian):
      magic(2) version(1) info_size(4) file_count(4)
      file_count times: name_len(4) name(name_len) skip(4) offset(4) size(4)
    For version '8' the key is the digest of the `info_size` bytes that start
    at offset 7, right after the `info_size` field. */
module Archive {
  import opened Bytes
  import opened Outcomes
  import opened Cipher

  const FILE_MAGIC: seq<byte> := [0x70, 0x66]
  const FILE_VERSION: byte := 0x38

  /** magic + version + `info_size` field: the index block starts here. */
  const INDEX_START: nat := 2 + 1 + 4

  const BACKSLASH: byte := 0x5C
  const SLASH: byte := 0x2F

  /** The version bytes the parser accepts, '2', '6' and '8'. */
  datatype Version = V2 | V6 | V8

  function VersionOf(b: byte): (r: Option<Version>)
    ensures r.Some? <==> b == 0x32 || b == 0x36 || b == 0x38
    ensures r == Some(V8) <==> b == 0x38
  {
    if b == 0x32 then Some(V2)
    else if b == 0x36 then Some(V6)
    else if b == 0x38 then Some(V8)
    else None
  }

  /** `PFSEntityInfo`. `path` is the source file of an entry being packed
      and empty for a parsed one; `position` locates the record's skip
      field; `offset` and `size` locate its payload. */
  datatype EntityInfo = EntityInfo(path: seq<byte>, name: seq<byte>, position: u32, offset: u32, size: u32)

  /** `PFSArchive`. */
  datatype PfsArchive = PfsArchive(filename: seq<byte>, files: seq<EntityInfo>, key: Digest)

  /** `file_name_size`: the name's byte length, or 0 when that does not fit a u32. */
  function FileNameSize(name: seq<byte>): (r: u32)
    ensures |name| < U32_LIMIT ==> r == |name|
    ensures |name| >= U32_LIMIT ==> r == 0
  {
    if |name| < U32_LIMIT then |name| else 0
  }

  /** `info_size`: what an entry's record adds to the header's `info_size`,
      nothing for an empty name and otherwise its four u32 fields plus its
      name bytes. */
  function InfoSize(e: EntityInfo): (r: nat)
    ensures |e.name| == 0 ==> r == 0
    ensures 0 < |e.name| < U32_LIMIT ==> r == 4 * 4 + |e.name|
    ensures |e.name| >= U32_LIMIT ==> r == 0
  {
    var size := FileNameSize(e.name);
    if size == 0 then 0 else 4 * 4 + size
  }

  /** `PFSArchive::new`: an archive with no entries and the all-zero key. */
  function New(filename: seq<byte>): (a: PfsArchive)
    ensures a.filename == filename && a.files == []
    ensures forall i :: 0 <= i < DIGEST_SIZE ==> a.key[i] == 0
  {
    PfsArchive(filename, [], ZeroKey())
  }

  /** `replace("\\", "/")` on the name's bytes. In UTF-8 the byte 0x5C
      occurs only as the character '\', so the byte-wise replacement is the
      character-wise one. */
  function Normalize(name: seq<byte>): (r: seq<byte>)
    ensures |r| == |name| && BACKSLASH !in r
    ensures forall i :: 0 <= i < |name| && name[i] != BACKSLASH ==> r[i] == name[i]
    ensures forall i :: 0 <= i < |name| && name[i] == BACKSLASH ==> r[i] == SLASH
  {
    seq(|name|, i requires 0 <= i < |name| => if name[i] == BACKSLASH then SLASH else name[i])
  }

  /** A name without backslashes comes through unchanged. */
  lemma NormalizeKeeps(name: seq<byte>)
    requires BACKSLASH !in name
    ensures Normalize(name) == name
  {
  }

  /** `u32::try_from(position).unwrap_or(0)`. */
  function TruncU32(p: nat): (r: u32)
    ensures p < U32_LIMIT ==> r == p
    ensures p >= U32_LIMIT ==> r == 0
  {
    if p < U32_LIMIT then p else 0
  }

  // ---------------------------------------------------------------------
  // The parser as a function of the stream's bytes

  /** `read_u32` at cursor `pos`: exactly four bytes, little-endian, and
      `Err` when fewer than four remain. */
  function ReadU32At(data: seq<byte>, pos: nat): (r: Outcome<u32>)
    ensures r.Ok? <==> pos + 4 <= |data|
    ensures r.Ok? ==> data[pos..pos + 4] == EncodeU32(r.value)
    ensures !r.Ok? ==> r == Err(ShortRead)
  {
    if pos + 4 <= |data| then
      EncodeDecode(data[pos..pos + 4]);
      Ok(DecodeU32(data[pos..pos + 4]))
    else Err(ShortRead)
  }

  /** The version byte as the parser sees it. The byte is read with `read`,
      not `read_exact`: on a stream that ends after the magic nothing is
      read and the buffer still holds the magic's first byte. */
  function VersionByte(data: seq<byte>): (r: byte)
    requires |data| >= 2
    ensures |data| > 2 ==> r == data[2]
    ensures |data| == 2 && data[..2] == FILE_MAGIC ==> r == 0x70 && VersionOf(r).None?
  {
    if |data| > 2 then data[2] else data[0]
  }

  /** One turn of the entry loop at cursor `pos`: the entry read and the
      cursor after its record. */
  function ParseEntry(data: seq<byte>, pos: nat): (r: Outcome<(EntityInfo, nat)>)
    ensures r.Ok? ==> pos + 16 <= r.value.1 <= |data| && BACKSLASH !in r.value.0.name
    ensures r.Panic? <==> pos + 4 <= |data| && pos + 4 + DecodeU32(data[pos..pos + 4]) > |data|
    ensures r.Err? ==> r.error == ShortRead
  {
    if pos + 4 > |data| then Err(ShortRead)
    else
      var position := pos + 4 + DecodeU32(data[pos..pos + 4]);
      if position > |data| then Panic(NameReadShort)
      // the skip, offset and size reads: the first one that runs short fails with Err
      else if position + 12 > |data| then Err(ShortRead)
      else
        Ok((EntityInfo([], Normalize(data[pos + 4..position]), TruncU32(position),
                       DecodeU32(data[position + 4..position + 8]), DecodeU32(data[position + 8..position + 12])),
            position + 12))
  }

  /** Where a parsed entry's fields sit in the stream: a record of
      `name_len`, the name, the skip field, `offset` and `size`; `position`
      is the cursor right after the name, at the skip field. */
  lemma ParseEntryFields(data: seq<byte>, pos: nat)
    requires ParseEntry(data, pos).Ok?
    ensures var (e, next) := ParseEntry(data, pos).value;
      && DecodeU32(data[pos..pos + 4]) == next - pos - 16
      && e.name == Normalize(data[pos + 4..next - 12])
      && e.position == TruncU32(next - 12)
      && data[next - 8..next - 4] == EncodeU32(e.offset)
      && data[next - 4..next] == EncodeU32(e.size)
      && e.path == []
  {
    var next := ParseEntry(data, pos).value.1;
    EncodeDecode(data[next - 8..next - 4]);
    EncodeDecode(data[next - 4..next]);
  }

  /** The first `count` turns of the entry loop from cursor `start`: the
      entries in stream order and the cursor after the last record. */
  function ParseEntries(data: seq<byte>, start: nat, count: nat): (r: Outcome<(seq<EntityInfo>, nat)>)
    requires start <= |data|
    decreases count
    ensures r.Ok? ==> |r.value.0| == count && start + 16 * count <= r.value.1 <= |data|
    ensures r.Ok? ==> forall i :: 0 <= i < count ==> BACKSLASH !in r.value.0[i].name
  {
    if count == 0 then Ok(([], start))
    else
      match ParseEntries(data, start, count - 1)
      case Err(e) => Err(e)
      case Panic(p) => Panic(p)
      case Ok(before) =>
        match ParseEntry(data, before.1)
        case Err(e) => Err(e)
        case Panic(p) => Panic(p)
        case Ok(entry) => Ok((before.0 + [entry.0], entry.1))
  }

  /** The header of `from_file`: magic, version, `info_size`, `file_count`. */
  function ParseHeader(data: seq<byte>): (r: Outcome<(Version, u32, u32)>)
    ensures |data| < 2 ==> r == Err(ShortRead)
    ensures |data| >= 2 && data[..2] != FILE_MAGIC ==> r == Err(FormatNotRecognized)
    ensures |data| >= 2 && data[..2] == FILE_MAGIC && VersionOf(VersionByte(data)).None? ==> r == Err(InvalidVersion)
    ensures 3 <= |data| < 11 && data[..2] == FILE_MAGIC && VersionOf(data[2]).Some? ==> r == Err(ShortRead)
    ensures r.Ok? ==> var (version, infoSize, fileCount) := r.value;
      && |data| >= 11 && data[..2] == FILE_MAGIC && VersionOf(data[2]) == Some(version)
      && infoSize == DecodeU32(data[3..7]) && fileCount == DecodeU32(data[7..11])
  {
    if |data| < 2 then Err(ShortRead)
    else if data[..2] != FILE_MAGIC then Err(FormatNotRecognized)
    else
      match VersionOf(VersionByte(data))
      case None => Err(InvalidVersion)
      case Some(version) =>
        assert |data| > 2;
        var infoSize :- ReadU32At(data, 3);
        var fileCount :- ReadU32At(data, 7);
        Ok((version, infoSize, fileCount))
  }

  /** `PFSArchive::from_file`, on the bytes of the file named `filename`. */
  function ParseArchive(data: seq<byte>, filename: seq<byte>, sha1: HashFn): (r: Outcome<PfsArchive>)
    ensures |data| < 2 ==> r == Err(ShortRead)
    ensures |data| >= 2 && data[..2] != FILE_MAGIC ==> r == Err(FormatNotRecognized)
    ensures |data| >= 2 && data[..2] == FILE_MAGIC && VersionOf(VersionByte(data)).None? ==> r == Err(InvalidVersion)
    ensures data == FILE_MAGIC ==> r == Err(InvalidVersion)
    ensures 3 <= |data| < 11 && data[..2] == FILE_MAGIC && VersionOf(data[2]).Some? ==> r == Err(ShortRead)
    ensures r.Ok? ==> |data| >= 11 && data[..2] == FILE_MAGIC && VersionOf(data[2]).Some?
    ensures r.Ok? ==> r.value.filename == filename
    ensures r.Ok? ==> |r.value.files| == DecodeU32(data[7..11])
    ensures r.Ok? ==> forall i :: 0 <= i < |r.value.files| ==> BACKSLASH !in r.value.files[i].name
    ensures r.Ok? && data[2] == 0x38 ==>
      INDEX_START + DecodeU32(data[3..7]) <= |data| &&
      r.value.key == sha1(data[INDEX_START..INDEX_START + DecodeU32(data[3..7])])
    ensures r.Ok? && data[2] != 0x38 ==> r.value.key == ZeroKey()
  {
    var header :- ParseHeader(data);
    var (version, infoSize, fileCount) := header;
    var entries :- ParseEntries(data, 11, fileCount);
    var key :- ArchiveKey(data, version, infoSize, sha1);
    Ok(PfsArchive(filename, entries.0, key))
  }

  /** The key of an archive: for version '8' the digest of the index block,
      which must be there in full; the all-zero key otherwise. Seeking past
      the end of the file succeeds, and so does reading nothing there, so an
      empty index block is digested even in a file shorter than 7 bytes. */
  function ArchiveKey(data: seq<byte>, version: Version, infoSize: u32, sha1: HashFn): (r: Outcome<Digest>)
    ensures !r.Ok? <==> version == V8 && infoSize > 0 && INDEX_START + infoSize > |data|
    ensures !r.Ok? ==> r == Panic(IndexReadShort)
    ensures version == V8 && INDEX_START + infoSize <= |data| ==> r == Ok(sha1(data[INDEX_START..INDEX_START + infoSize]))
    ensures version == V8 && infoSize == 0 ==> r == Ok(sha1([]))
    ensures version != V8 ==> r == Ok(ZeroKey())
  {
    if version != V8 then Ok(ZeroKey())
    else if INDEX_START + infoSize <= |data| then
      assert infoSize == 0 ==> data[INDEX_START..INDEX_START + infoSize] == [];
      Ok(sha1(data[INDEX_START..INDEX_START + infoSize]))
    else if infoSize == 0 then Ok(sha1([]))
    else Panic(IndexReadShort)
  }

  /** One more turn of the entry loop after a successful run of `i` turns. */
  lemma ParseEntriesStep(data: seq<byte>, start: nat, i: nat, before: seq<EntityInfo>, cursor: nat)
    requires start <= |data| && ParseEntries(data, start, i) == Ok((before, cursor))
    ensures ParseEntries(data, start, i + 1)
         == match ParseEntry(data, cursor)
            case Ok(entry) => Ok((before + [entry.0], entry.1))
            case Err(e) => Err(e)
            case Panic(p) => Panic(p)
  {
  }

  /** Parsing entries stops at the first failure: once a prefix of the loop
      fails, every longer run of it fails the same way. */
  lemma {:induction false} ParseEntriesFailureSticks(data: seq<byte>, start: nat, k: nat, count: nat)
    requires start <= |data| && k <= count && !ParseEntries(data, start, k).Ok?
    ensures ParseEntries(data, start, count) == ParseEntries(data, start, k)
    decreases count
  {
    if count > k {
      ParseEntriesFailureSticks(data, start, k, count - 1);
    }
  }

  /** The entries come out in stream order: a successful run of `count` turns
      extends the run of `i` turns, and turn `i` reads entry `i` from the
      cursor where the run of `i` turns stopped. */
  lemma {:induction false} ParseEntriesPrefix(data: seq<byte>, start: nat, count: nat, i: nat)
    requires start <= |data| && i < count && ParseEntries(data, start, count).Ok?
    ensures ParseEntries(data, start, i).Ok? && ParseEntries(data, start, i + 1).Ok?
    ensures ParseEntries(data, start, i).value.0 == ParseEntries(data, start, count).value.0[..i]
    ensures ParseEntry(data, ParseEntries(data, start, i).value.1)
         == Ok((ParseEntries(data, start, count).value.0[i], ParseEntries(data, start, i + 1).value.1))
    decreases count
  {
    var all := ParseEntries(data, start, count).value.0;
    var before := ParseEntries(data, start, count - 1);
    if !before.Ok? {
      assert false;
    }
    if i < count - 1 {
      ParseEntriesPrefix(data, start, count - 1, i);
      assert before.value.0 == all[..count - 1];
      assert all[..count - 1][..i] == all[..i];
    } else {
      assert all[..i] == before.value.0;
    }
  }

  // ---------------------------------------------------------------------
  // The parser as the source runs it: a cursor advanced step by step

  /** `BufReader<File>` over the archive's bytes. */
  class Reader {
    const data: seq<byte>
    var pos: nat

    ghost predicate Valid()
      reads this
    {
      pos <= |data|
    }

    constructor (data: seq<byte>)
      ensures Valid() && this.data == data && pos == 0
    {
      this.data := data;
      pos := 0;
    }

    /** `read_exact`: all `n` bytes, or failure with the stream used up. */
    method ReadExact(n: nat) returns (r: Option<seq<byte>>)
      requires Valid()
      modifies this
      ensures Valid()
      ensures old(pos) + n <= |data| ==> r == Some(data[old(pos)..old(pos) + n]) && pos == old(pos) + n
      ensures old(pos) + n > |data| ==> r == None && pos == |data|
    {
      if pos + n <= |data| {
        r := Some(data[pos..pos + n]);
        pos := pos + n;
      } else {
        r := None;
        pos := |data|;
      }
    }

    /** `read` into an `n`-byte buffer: whatever is left, up to `n` bytes. */
    method Read(n: nat) returns (got: seq<byte>)
      requires Valid()
      modifies this
      ensures Valid()
      ensures got == data[old(pos)..if old(pos) + n <= |data| then old(pos) + n else |data|]
      ensures pos == old(pos) + |got|
    {
      var end := if pos + n <= |data| then pos + n else |data|;
      got := data[pos..end];
      pos := end;
    }

    /** `stream_position`. */
    method StreamPosition() returns (p: nat)
      ensures p == pos
    {
      p := pos;
    }

    /** `seek(SeekFrom::Start(p))`. */
    method Seek(p: nat)
      requires p <= |data|
      modifies this
      ensures Valid() && pos == p
    {
      pos := p;
    }
  }

  /** `read_u32`: advances the cursor by four bytes, or fails with `Err`. */
  method ReadU32(reader: Reader) returns (r: Outcome<u32>)
    requires reader.Valid()
    modifies reader
    ensures reader.Valid()
    ensures r == ReadU32At(reader.data, old(reader.pos))
    ensures r.Ok? ==> reader.pos == old(reader.pos) + 4
  {
    var buffer := reader.ReadExact(4);
    if buffer.None? {
      return Err(ShortRead);
    }
    return Ok(DecodeU32(buffer.value));
  }

  /** One turn of the entry loop of `from_file`: reads `name_len`, the name
      (a short read here panics), the skip field, `offset` and `size`. */
  method ReadEntry(reader: Reader) returns (r: Outcome<EntityInfo>)
    requires reader.Valid()
    modifies reader
    ensures reader.Valid()
    ensures ParseEntry(reader.data, old(reader.pos))
         == if r.Ok? then Ok((r.value, reader.pos)) else r.PropagateFailure()
  {
    var capacity :- ReadU32(reader);
    var buffer := reader.ReadExact(capacity);
    if buffer.None? {
      return Panic(NameReadShort);
    }
    var name := Normalize(buffer.value);
    var position := reader.StreamPosition();
    var skip :- ReadU32(reader);
    var offset :- ReadU32(reader);
    var size :- ReadU32(reader);
    return Ok(EntityInfo([], name, TruncU32(position), offset, size));
  }

  /** The header reads of `from_file`, from a fresh cursor. */
  method ReadHeader(reader: Reader) returns (r: Outcome<(Version, u32, u32)>)
    requires reader.Valid() && reader.pos == 0
    modifies reader
    ensures reader.Valid()
    ensures r == ParseHeader(reader.data)
    ensures r.Ok? ==> reader.pos == 11
  {
    var magic := reader.ReadExact(2);
    if magic.None? {
      return Err(ShortRead);
    }
    if magic.value != FILE_MAGIC {
      return Err(FormatNotRecognized);
    }
    var got := reader.Read(1);
    var versionByte := if |got| == 1 then got[0] else magic.value[0];
    var version := VersionOf(versionByte);
    if version.None? {
      return Err(InvalidVersion);
    }
    var infoSize :- ReadU32(reader);
    var fileCount :- ReadU32(reader);
    return Ok((version.value, infoSize, fileCount));
  }

  /** The entry loop of `from_file`: `count` turns from the cursor, stopping
      at the first failure. */
  method ReadEntries(reader: Reader, count: u32) returns (r: Outcome<seq<EntityInfo>>)
    requires reader.Valid()
    modifies reader
    ensures reader.Valid()
    ensures ParseEntries(reader.data, old(reader.pos), count)
         == if r.Ok? then Ok((r.value, reader.pos)) else r.PropagateFailure()
  {
    ghost var start := reader.pos;
    var infos: seq<EntityInfo> := [];
    var i := 0;
    while i < count
      invariant 0 <= i <= count
      invariant reader.Valid()
      invariant ParseEntries(reader.data, start, i) == Ok((infos, reader.pos))
    {
      ghost var cursor := reader.pos;
      var entry := ReadEntry(reader);
      ParseEntriesStep(reader.data, start, i, infos, cursor);
      if entry.IsFailure() {
        ParseEntriesFailureSticks(reader.data, start, i + 1, count);
        return entry.PropagateFailure();
      }
      infos := infos + [entry.value];
      i := i + 1;
    }
    return Ok(infos);
  }

  /** The key step of `from_file`: for version '8', seek back to the index
      block, read it in full (a short read panics) and digest it. */
  method ReadKey(reader: Reader, version: Version, infoSize: u32, sha1: HashFn) returns (r: Outcome<Digest>)
    requires reader.Valid()
    modifies reader
    ensures r == ArchiveKey(reader.data, version, infoSize, sha1)
  {
    if version != V8 {
      return Ok(ZeroKey());
    }
    if |reader.data| < INDEX_START {
      // the seek lands past the end, where only an empty read succeeds
      if infoSize == 0 {
        return Ok(sha1([]));
      }
      return Panic(IndexReadShort);
    }
    reader.Seek(INDEX_START);
    var block := reader.ReadExact(infoSize);
    if block.None? {
      return Panic(IndexReadShort);
    }
    return Ok(sha1(block.value));
  }

  /** `PFSArchive::from_file`, reading the file's bytes through a cursor. */
  method FromFile(data: seq<byte>, filename: seq<byte>, sha1: HashFn) returns (r: Outcome<PfsArchive>)
    ensures r == ParseArchive(data, filename, sha1)
  {
    var reader := new Reader(data);
    var header :- ReadHeader(reader);
    var (version, infoSize, fileCount) := header;
    var infos :- ReadEntries(reader, fileCount);
    var key :- ReadKey(reader, version, infoSize, sha1);
    return Ok(PfsArchive(filename, infos, key));
  }
}
