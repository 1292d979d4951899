/** src/pfs/pack.rs: building a PFS archive (version '8') from one input
    file. The layout written is

      magic(2) '8'(1) info_size(4)                       the prologue
      file_count(4) records offset-table                  the index block
      payloads                                            one per entry

    and the cipher key of the payloads is the digest of the index block.
    The specification functions below give every part of the image as a
    function of the entries; the methods after them write it the way the
    source does, through a writer, an in-memory writer per record and a
    hasher fed along the way. */
module Packer {
  import opened Bytes
  import opened Outcomes
  import opened Cipher
  import opened Archive
  import opened Paths

  /** What the input path names on the disk. */
  datatype Node = Missing | Directory | RegularFile(content: seq<byte>)

  /** `entity_from`, for a path that is not a directory: `NotFound` when
      nothing is there, a panic when the path has no file name or the file
      does not fit a u32, and otherwise an entry named after the path's
      last component with the file's length as its size. */
  function EntityFrom(path: seq<byte>, node: Node): (r: Outcome<EntityInfo>)
    requires !node.Directory?
    ensures r.Err? <==> node.Missing?
    ensures r.Err? ==> r.error == NotFound
    ensures r == Panic(NoFileName) <==> node.RegularFile? && FileName(path).None?
    ensures r == Panic(SizeOverflow) <==> node.RegularFile? && FileName(path).Some? && |node.content| >= U32_LIMIT
    ensures r.Ok? ==>
      && node.RegularFile? && r.value.path == path && Some(r.value.name) == FileName(path)
      && r.value.size == |node.content| && r.value.position == 0 && r.value.offset == 0
  {
    match node
    case Missing => Err(NotFound)
    case RegularFile(content) =>
      match FileName(path)
      case None => Panic(NoFileName)
      case Some(name) =>
        if |content| >= U32_LIMIT then Panic(SizeOverflow)
        else Ok(EntityInfo(path, name, 0, 0, |content|))
  }

  // ---------------------------------------------------------------------
  // The header's info_size and the offset counter, in closed form

  /** The sum of the entries' `info_size` over the first `k` entries. */
  function SumInfoSizes(files: seq<EntityInfo>, k: nat): nat
    requires k <= |files|
  {
    if k == 0 then 0 else SumInfoSizes(files, k - 1) + InfoSize(files[k - 1])
  }

  /** `header.info_size` as lines 21-37 compute it, before any overflow
      check: the entries' sizes, the count and index fields, 8 bytes of
      offset table per entry, the table terminator and the table field. */
  function HeaderInfoSize(files: seq<EntityInfo>): (r: nat)
    ensures r >= 8 * |files| + 20
  {
    SumInfoSizes(files, |files|) + 4 + 4 + |files| * 2 * 4 + 2 * 4 + 4
  }

  /** The bytes of an entry's record: length field, name, skip, offset, size. */
  function RecordLength(e: EntityInfo): nat
  {
    4 + |e.name| + 4 + 4 + 4
  }

  /** The length of the first `k` records. */
  function MetaLen(files: seq<EntityInfo>, k: nat): (r: nat)
    requires k <= |files|
    ensures r >= 16 * k
  {
    if k == 0 then 0 else MetaLen(files, k - 1) + RecordLength(files[k - 1])
  }

  /** The total of the first `k` entries' payload sizes. */
  function PayloadTotal(files: seq<EntityInfo>, k: nat): nat
    requires k <= |files|
  {
    if k == 0 then 0 else PayloadTotal(files, k - 1) + files[k - 1].size
  }

  /** The value of the `offset` counter when entry `i` takes it (line 61):
      `info_size`, plus the magic, version and count writes, plus every
      earlier record and every earlier payload. */
  function RecordedOffset(files: seq<EntityInfo>, i: nat): (r: nat)
    requires i <= |files|
    ensures r >= HeaderInfoSize(files) + INDEX_START + 16 * i
  {
    HeaderInfoSize(files) + 2 + 1 + 4 + MetaLen(files, i) + PayloadTotal(files, i)
  }

  /** The `position` line 64 gives entry `i`: the writer's position before
      its record plus the record bytes buffered so far, so the offset of
      the record's skip field. */
  function Position(files: seq<EntityInfo>, i: nat): (r: nat)
    requires i < |files|
    ensures r >= INDEX_START + 8 + 16 * i + |files[i].name|
  {
    2 + 1 + 4 + 4 + MetaLen(files, i) + 4 + |files[i].name|
  }

  /** `table_pos` (line 91): where the offset table starts, less 7, which
      is its offset within the index block, after the count and the records. */
  function TablePos(files: seq<EntityInfo>): (r: nat)
    ensures r == 4 + MetaLen(files, |files|)
  {
    2 + 1 + 4 + 4 + MetaLen(files, |files|) - 3 - 4
  }

  /** Entry `i`'s offset and position fit a u32 (lines 61 and 64). */
  predicate EntryFits(files: seq<EntityInfo>, i: nat)
    requires i < |files|
  {
    RecordedOffset(files, i) < U32_LIMIT && Position(files, i) < U32_LIMIT
  }

  /** No u32 in `pack` overflows and no `u32::try_from` fails. The count
      `file_count + 1` of line 80 fits as soon as `info_size` does. */
  predicate Fits(files: seq<EntityInfo>)
    ensures Fits(files) ==> |files| < U32_LIMIT
  {
    && HeaderInfoSize(files) < U32_LIMIT
    && (forall i :: 0 <= i < |files| ==> EntryFits(files, i))
    && TablePos(files) < U32_LIMIT
  }

  /** Entry `i` after the record loop has set its offset and position. */
  function Assign(files: seq<EntityInfo>, i: nat): (e: EntityInfo)
    requires i < |files| && EntryFits(files, i)
    ensures e.path == files[i].path && e.name == files[i].name && e.size == files[i].size
    ensures e.offset == RecordedOffset(files, i) && e.position == Position(files, i)
  {
    files[i].(offset := RecordedOffset(files, i), position := Position(files, i))
  }

  /** All entries after the record loop. */
  function Assigned(files: seq<EntityInfo>): (r: seq<EntityInfo>)
    requires forall i :: 0 <= i < |files| ==> EntryFits(files, i)
    ensures |r| == |files|
  {
    seq(|files|, i requires 0 <= i < |files| => Assign(files, i))
  }

  lemma AssignedAt(files: seq<EntityInfo>, i: nat)
    requires forall j :: 0 <= j < |files| ==> EntryFits(files, j)
    requires i < |files|
    ensures Assigned(files)[i] == Assign(files, i)
  {
  }

  /** Every assigned position lies past `ref_pos`. */
  lemma AssignedPositions(files: seq<EntityInfo>)
    requires forall j :: 0 <= j < |files| ==> EntryFits(files, j)
    ensures forall i :: 0 <= i < |files| ==> Assigned(files)[i].position >= 7
  {
    forall i | 0 <= i < |files|
      ensures Assigned(files)[i].position >= 7
    {
      AssignedAt(files, i);
    }
  }

  /** Assigning offsets and positions keeps the names, so the records
      keep their lengths. */
  lemma {:induction false} AssignedMetaLen(files: seq<EntityInfo>, k: nat)
    requires forall j :: 0 <= j < |files| ==> EntryFits(files, j)
    requires k <= |files|
    ensures MetaLen(Assigned(files), k) == MetaLen(files, k)
  {
    if k > 0 {
      AssignedMetaLen(files, k - 1);
      AssignedAt(files, k - 1);
    }
  }

  // ---------------------------------------------------------------------
  // The image, part by part

  /** An entry's record (lines 62-67). */
  function Record(e: EntityInfo): (r: seq<byte>)
    ensures |r| == RecordLength(e)
  {
    EncodeU32(FileNameSize(e.name)) + e.name + Zeros(4) + EncodeU32(e.offset) + EncodeU32(e.size)
  }

  /** Where the fields of a record sit: the length field at 0, the name at
      4, the zero skip field right after the name, then offset and size. */
  lemma RecordLayout(e: EntityInfo)
    ensures var r, n := Record(e), |e.name|;
      && |r| == RecordLength(e)
      && r[..4] == EncodeU32(FileNameSize(e.name))
      && r[4..4 + n] == e.name
      && r[4 + n..8 + n] == Zeros(4)
      && r[8 + n..12 + n] == EncodeU32(e.offset)
      && r[12 + n..16 + n] == EncodeU32(e.size)
  {
    FiveFields(EncodeU32(FileNameSize(e.name)), e.name, Zeros(4), EncodeU32(e.offset), EncodeU32(e.size));
  }

  /** The parts of a five-part concatenation whose parts other than the
      second have four bytes each. */
  lemma FiveFields(a: seq<byte>, b: seq<byte>, c: seq<byte>, d: seq<byte>, f: seq<byte>)
    requires |a| == 4 && |c| == 4 && |d| == 4 && |f| == 4
    ensures (a + b + c + d + f)[..4] == a
    ensures (a + b + c + d + f)[4..4 + |b|] == b
    ensures (a + b + c + d + f)[4 + |b|..8 + |b|] == c
    ensures (a + b + c + d + f)[8 + |b|..12 + |b|] == d
    ensures (a + b + c + d + f)[12 + |b|..16 + |b|] == f
  {
    var r := a + b + c + d + f;
    assert r == [] + a + (b + c + d + f);
    SliceMiddle([], a, b + c + d + f);
    assert r == a + b + (c + d + f);
    SliceMiddle(a, b, c + d + f);
    assert r == (a + b) + c + (d + f);
    SliceMiddle(a + b, c, d + f);
    SliceMiddle(a + b + c, d, f);
    assert r == (a + b + c + d) + f + [];
    SliceMiddle(a + b + c + d, f, []);
  }

  /** The records of the first `k` entries, in entry order. */
  function Records(es: seq<EntityInfo>, k: nat): (r: seq<byte>)
    requires k <= |es|
    ensures |r| == MetaLen(es, k)
  {
    if k == 0 then [] else Records(es, k - 1) + Record(es[k - 1])
  }

  /** One pair of the offset table: the entry's position relative to
      `ref_pos`, then four zero bytes (lines 83-84). */
  function TableEntry(e: EntityInfo): seq<byte>
    requires e.position >= 7
  {
    EncodeU32(e.position - 7) + Zeros(4)
  }

  /** The pairs of the first `k` entries. */
  function TableEntries(es: seq<EntityInfo>, k: nat): (r: seq<byte>)
    requires k <= |es| && forall i :: 0 <= i < k ==> es[i].position >= 7
    ensures |r| == 8 * k
  {
    if k == 0 then [] else TableEntries(es, k - 1) + TableEntry(es[k - 1])
  }

  /** The offset table (lines 80-92): `file_count + 1`, the pairs, the
      eight-byte terminator and `table_pos`. */
  function OffsetTable(files: seq<EntityInfo>): (r: seq<byte>)
    requires Fits(files)
    ensures |r| == 8 * |files| + 16
  {
    AssignedPositions(files);
    EncodeU32(|files| + 1) + TableEntries(Assigned(files), |files|) + Zeros(8) + EncodeU32(TablePos(files))
  }

  /** The index block: every byte written after the `info_size` field and
      before the payloads, which are the bytes fed to the hasher. */
  function IndexBlock(files: seq<EntityInfo>): (r: seq<byte>)
    requires Fits(files)
    ensures |r| == 4 + MetaLen(files, |files|) + 8 * |files| + 16
  {
    AssignedMetaLen(files, |files|);
    EncodeU32(|files|) + Records(Assigned(files), |files|) + OffsetTable(files)
  }

  /** Magic, version '8' and `info_size` (lines 45-48). */
  function Prologue(files: seq<EntityInfo>): (r: seq<byte>)
    requires Fits(files)
    ensures |r| == INDEX_START && r[..3] == [0x70, 0x66, 0x38] && r[3..] == EncodeU32(HeaderInfoSize(files))
  {
    FILE_MAGIC + [FILE_VERSION] + EncodeU32(HeaderInfoSize(files))
  }

  /** The ciphered payloads, in entry order (lines 101-112). */
  function Payloads(contents: seq<seq<byte>>, key: Digest): (r: seq<byte>)
  {
    if |contents| == 0 then []
    else Payloads(contents[..|contents| - 1], key) + Xor(contents[|contents| - 1], key)
  }

  /** The archive `pack` writes for these entries and file contents. */
  function PackedImage(files: seq<EntityInfo>, contents: seq<seq<byte>>, sha1: HashFn): (r: seq<byte>)
    requires Fits(files)
    ensures |r| == INDEX_START + |IndexBlock(files)| + |Payloads(contents, sha1(IndexBlock(files)))|
  {
    Prologue(files) + IndexBlock(files) + Payloads(contents, sha1(IndexBlock(files)))
  }

  /** What `pack` produces for the input path: the `todo!` panic for a
      directory, the failures of `entity_from`, an overflow panic, or the
      bytes of the output file. */
  function PackOutput(path: seq<byte>, node: Node, sha1: HashFn): (r: Outcome<seq<byte>>)
    ensures node.Directory? ==> r == Panic(Unimplemented)
  {
    if node.Directory? then Panic(Unimplemented)
    else
      var entity :- EntityFrom(path, node);
      if Fits([entity]) then Ok(PackedImage([entity], [node.content], sha1))
      else Panic(ArithmeticOverflow)
  }

  // ---------------------------------------------------------------------
  // Facts about the layout

  /** `info_size` is the length of the index block exactly when every name
      is non-empty: an empty name adds 16 record bytes but no info_size. */
  lemma {:induction false} SumInfoSizesIsMetaLen(files: seq<EntityInfo>, k: nat)
    requires k <= |files|
    requires forall i :: 0 <= i < k ==> 0 < |files[i].name| < U32_LIMIT
    ensures SumInfoSizes(files, k) == MetaLen(files, k)
  {
    if k > 0 {
      SumInfoSizesIsMetaLen(files, k - 1);
    }
  }

  lemma InfoSizeIsIndexLength(files: seq<EntityInfo>)
    requires Fits(files)
    requires forall i :: 0 <= i < |files| ==> |files[i].name| > 0
    ensures HeaderInfoSize(files) == |IndexBlock(files)|
  {
    forall i | 0 <= i < |files|
      ensures |files[i].name| < U32_LIMIT
    {
      assert EntryFits(files, i);
    }
    SumInfoSizesIsMetaLen(files, |files|);
  }

  /** The image in its five parts: prologue, count field, records, offset
      table, payloads. */
  lemma ImageParts(files: seq<EntityInfo>, contents: seq<seq<byte>>, sha1: HashFn)
    requires Fits(files)
    ensures PackedImage(files, contents, sha1)
         == (Prologue(files) + EncodeU32(|files|)) + Records(Assigned(files), |files|)
          + (OffsetTable(files) + Payloads(contents, sha1(IndexBlock(files))))
  {
    var p, c, r, t := Prologue(files), EncodeU32(|files|), Records(Assigned(files), |files|), OffsetTable(files);
    var b := IndexBlock(files);
    var y := Payloads(contents, sha1(b));
    assert b == c + r + t;
    assert PackedImage(files, contents, sha1) == p + b + y;
    Assoc(p, c, r, t, y);
  }

  lemma Assoc(p: seq<byte>, c: seq<byte>, r: seq<byte>, t: seq<byte>, y: seq<byte>)
    ensures p + (c + r + t) + y == (p + c) + r + (t + y)
  {
  }

  /** The file starts with `70 66 38` and `info_size` little-endian, and
      the index block, the hasher's input, starts at `ref_pos` = 7. */
  lemma PrologueBytes(files: seq<EntityInfo>, contents: seq<seq<byte>>, sha1: HashFn, img: seq<byte>)
    requires Fits(files) && img == PackedImage(files, contents, sha1)
    ensures img[..3] == [0x70, 0x66, 0x38]
    ensures img[3..7] == EncodeU32(HeaderInfoSize(files))
    ensures img[INDEX_START..INDEX_START + |IndexBlock(files)|] == IndexBlock(files)
  {
    var p, b := Prologue(files), IndexBlock(files);
    ThreeParts(p, b, Payloads(contents, sha1(b)));
  }

  /** Bytes 7 to 11 of a packed image are the file count that opens the
      index block. */
  lemma CountBytes(files: seq<EntityInfo>, contents: seq<seq<byte>>, sha1: HashFn, img: seq<byte>)
    requires Fits(files) && img == PackedImage(files, contents, sha1)
    ensures img[7..11] == EncodeU32(|files|)
  {
    var p, b := Prologue(files), IndexBlock(files);
    assert b[..4] == EncodeU32(|files|);
    FourAfterSeven(p, b, Payloads(contents, sha1(b)));
  }

  lemma FourAfterSeven(p: seq<byte>, b: seq<byte>, rest: seq<byte>)
    requires |p| == 7 && |b| >= 4
    ensures (p + b + rest)[7..11] == b[..4]
  {
    assert forall k :: 0 <= k < 4 ==> (p + b + rest)[7..11][k] == b[k];
  }

  /** The head, the second part and the start of the head of a three-part
      concatenation. */
  lemma ThreeParts(p: seq<byte>, b: seq<byte>, rest: seq<byte>)
    requires |p| == 7
    ensures (p + b + rest)[..3] == p[..3] && (p + b + rest)[3..7] == p[3..]
    ensures (p + b + rest)[|p|..|p| + |b|] == b
  {
    SliceMiddle(p, b, rest);
  }

  /** The offset entry `i` records is where its payload would start plus
      the length of the records before it: the counter charges the earlier
      records as well as the earlier payloads. */
  lemma RecordedOffsetSplit(files: seq<EntityInfo>, i: nat)
    requires Fits(files) && i <= |files|
    requires forall j :: 0 <= j < |files| ==> |files[j].name| > 0
    ensures RecordedOffset(files, i)
         == INDEX_START + |IndexBlock(files)| + PayloadTotal(files, i) + MetaLen(files, i)
  {
    InfoSizeIsIndexLength(files);
  }

  /** The offsets the record loop assigns: entry 0 takes `info_size + 7`,
      and each later entry the previous offset plus the previous record's
      16 fixed bytes, its name and its payload size. */
  lemma AssignedOffsets(files: seq<EntityInfo>, i: nat)
    requires forall j :: 0 <= j < |files| ==> EntryFits(files, j)
    requires i + 1 < |files|
    ensures Assigned(files)[0].offset == HeaderInfoSize(files) + INDEX_START
    ensures Assigned(files)[i + 1].offset
         == Assigned(files)[i].offset + 16 + |files[i].name| + files[i].size
  {
    AssignedAt(files, 0);
    AssignedAt(files, i);
    AssignedAt(files, i + 1);
  }

  /** So only entry 0 records the offset of its own payload. */
  lemma OffsetIsPayloadStartOnlyForFirst(files: seq<EntityInfo>, i: nat)
    requires Fits(files) && i < |files|
    requires forall j :: 0 <= j < |files| ==> |files[j].name| > 0
    ensures RecordedOffset(files, i) == INDEX_START + |IndexBlock(files)| + PayloadTotal(files, i) <==> i == 0
  {
    RecordedOffsetSplit(files, i);
  }

  /** Record `k` starts `MetaLen(es, k)` bytes into the records. */
  lemma {:induction false} RecordsSlice(es: seq<EntityInfo>, k: nat, n: nat, i: nat, j: nat)
    requires k < n <= |es| && i == MetaLen(es, k) && j == MetaLen(es, k + 1)
    ensures j <= |Records(es, n)| && Records(es, n)[i..j] == Record(es[k])
    decreases n
  {
    if k + 1 == n {
      LastRecordSlice(es, k, n);
    } else {
      RecordsSlice(es, k, n - 1, i, j);
      PrefixSlice(Records(es, n), Records(es, n - 1), Record(es[n - 1]), i, j, Record(es[k]));
    }
  }

  /** The last of `k + 1` records ends the run. */
  lemma LastRecordSlice(es: seq<EntityInfo>, k: nat, n: nat)
    requires n == k + 1 <= |es|
    ensures MetaLen(es, n) == |Records(es, n)|
    ensures Records(es, n)[MetaLen(es, k)..MetaLen(es, n)] == Record(es[k])
  {
    var a, b := Records(es, k), Record(es[k]);
    assert Records(es, n) == a + b;
    SuffixSlice(a, b, MetaLen(es, k), MetaLen(es, n));
  }

  lemma SliceAt(pre: seq<byte>, mid: seq<byte>, post: seq<byte>, i: nat, j: nat)
    requires i <= j <= |mid|
    ensures (pre + mid + post)[|pre| + i..|pre| + j] == mid[i..j]
  {
    assert (pre + mid + post)[|pre| + i..|pre| + j] == (pre + mid + post)[|pre|..|pre| + |mid|][i..j];
    SliceMiddle(pre, mid, post);
  }

  lemma PrefixSlice(r: seq<byte>, a: seq<byte>, b: seq<byte>, i: nat, j: nat, x: seq<byte>)
    requires r == a + b && i <= j <= |a| && a[i..j] == x
    ensures j <= |r| && r[i..j] == x
  {
    SliceOfPrefix(a, b, i, j);
  }

  lemma SuffixSlice(a: seq<byte>, b: seq<byte>, i: nat, j: nat)
    requires i == |a| && j == |a| + |b|
    ensures (a + b)[i..j] == b
  {
  }

  lemma SliceOfPrefix(a: seq<byte>, b: seq<byte>, i: nat, j: nat)
    requires i <= j <= |a|
    ensures (a + b)[i..j] == a[i..j]
  {
  }

  /** Record `i` sits in the image right after the records before it. */
  lemma RecordInImage(files: seq<EntityInfo>, contents: seq<seq<byte>>, sha1: HashFn, i: nat,
                       img: seq<byte>, start: nat)
    requires Fits(files) && i < |files|
    requires img == PackedImage(files, contents, sha1) && start == INDEX_START + 4 + MetaLen(files, i)
    ensures start + RecordLength(files[i]) <= |img|
    ensures img[start..start + RecordLength(files[i])] == Record(Assign(files, i))
  {
    var es, n := Assigned(files), |files|;
    var pre := Prologue(files) + EncodeU32(n);
    var recs := Records(es, n);
    var post := OffsetTable(files) + Payloads(contents, sha1(IndexBlock(files)));
    var a, b := MetaLen(es, i), MetaLen(es, i + 1);
    ImageParts(files, contents, sha1);
    RecordsSlice(es, i, n, a, b);
    AssignedAt(files, i);
    AssignedMetaLen(files, i);
    AssignedMetaLen(files, i + 1);
    SliceAtEq(img, pre, recs, post, a, b, start, start + RecordLength(files[i]), Record(Assign(files, i)));
  }

  /** `SliceAt` with the bounds given by name. */
  lemma SliceAtEq(img: seq<byte>, pre: seq<byte>, mid: seq<byte>, post: seq<byte>, a: nat, b: nat, x: nat, y: nat,
                  part: seq<byte>)
    requires img == pre + mid + post && a <= b <= |mid| && x == |pre| + a && y == |pre| + b && mid[a..b] == part
    ensures y <= |img| && img[x..y] == part
  {
    SliceAt(pre, mid, post, a, b);
  }

  /** The position each entry records is the offset, in the image, of the
      zero placeholder after its name. */
  lemma PositionIsPlaceholder(files: seq<EntityInfo>, contents: seq<seq<byte>>, sha1: HashFn, i: nat,
                               img: seq<byte>)
    requires Fits(files) && i < |files| && img == PackedImage(files, contents, sha1)
    ensures Position(files, i) + 4 <= |img| && img[Position(files, i)..Position(files, i) + 4] == Zeros(4)
  {
    var start := INDEX_START + 4 + MetaLen(files, i);
    RecordInImage(files, contents, sha1, i, img, start);
    PlaceholderInRecord(img, start, RecordLength(files[i]), Assign(files, i), Position(files, i));
  }

  /** The skip field of a record that sits at `start` in `img`. */
  lemma PlaceholderInRecord(img: seq<byte>, start: nat, len: nat, e: EntityInfo, p: nat)
    requires len == RecordLength(e) && start + len <= |img| && img[start..start + len] == Record(e)
    requires p == start + 4 + |e.name|
    ensures p + 4 <= |img| && img[p..p + 4] == Zeros(4)
  {
    RecordLayout(e);
    FieldAt(img, start, Record(e), 4 + |e.name|, Zeros(4), p);
  }

  /** A field of a slice of `img` is a slice of `img`. */
  lemma FieldAt(img: seq<byte>, start: nat, rec: seq<byte>, at: nat, field: seq<byte>, p: nat)
    requires start + |rec| <= |img| && img[start..start + |rec|] == rec
    requires at + |field| <= |rec| && rec[at..at + |field|] == field && p == start + at
    ensures p + |field| <= |img| && img[p..p + |field|] == field
  {
    SliceOfSlice(img, start, start + |rec|, at, at + |field|);
  }

  /** A slice of a slice is a slice. */
  lemma SliceOfSlice(s: seq<byte>, x: nat, y: nat, a: nat, b: nat)
    requires x <= y <= |s| && a <= b <= y - x
    ensures s[x..y][a..b] == s[x + a..x + b]
  {
    assert forall t :: 0 <= t < b - a ==> s[x..y][a..b][t] == s[x + a..x + b][t];
  }

  /** `table_pos` is where the offset table starts within the index block
      (so `table_pos` + 7 in the file), and the table's last field holds it. */
  lemma TableSelfOffsetLocatesTable(files: seq<EntityInfo>, block: seq<byte>)
    requires Fits(files) && block == IndexBlock(files)
    ensures block[TablePos(files)..] == OffsetTable(files)
    ensures block[|block| - 4..] == EncodeU32(TablePos(files))
  {
    var es, n := Assigned(files), |files|;
    var a := EncodeU32(n) + Records(es, n);
    AssignedMetaLen(files, n);
    AssignedPositions(files);
    var u, v := EncodeU32(n + 1) + TableEntries(es, n) + Zeros(8), EncodeU32(TablePos(files));
    HeadAndTail(block, a, OffsetTable(files), u, v, TablePos(files));
  }

  lemma HeadAndTail(s: seq<byte>, a: seq<byte>, t: seq<byte>, u: seq<byte>, v: seq<byte>, k: nat)
    requires s == a + t && t == u + v && |v| == 4 && k == |a|
    ensures s[k..] == t && s[|s| - 4..] == v
  {
    assert s[k..] == t;
  }

  /** Records and lengths over the first `k` entries depend on those
      entries alone. */
  lemma {:induction false} RecordsAgree(a: seq<EntityInfo>, b: seq<EntityInfo>, k: nat)
    requires k <= |a| && k <= |b| && forall j :: 0 <= j < k ==> a[j] == b[j]
    ensures Records(a, k) == Records(b, k) && MetaLen(a, k) == MetaLen(b, k)
  {
    if k > 0 {
      RecordsAgree(a, b, k - 1);
    }
  }

  lemma {:induction false} SumInfoSizesMonotone(files: seq<EntityInfo>, i: nat, n: nat)
    requires i <= n <= |files|
    ensures SumInfoSizes(files, i) <= SumInfoSizes(files, n)
    decreases n
  {
    if i < n {
      SumInfoSizesMonotone(files, i, n - 1);
    }
  }

  // ---------------------------------------------------------------------
  // The packer as the source runs it

  /** `BufWriter` over the output file, or over a `Vec` for the in-memory
      writers: the bytes written so far, in order. */
  class Writer {
    var bytes: seq<byte>

    constructor ()
      ensures bytes == []
    {
      bytes := [];
    }

    /** `write`: the whole slice is taken, and its length returned. */
    method Write(b: seq<byte>) returns (n: nat)
      modifies this
      ensures bytes == old(bytes) + b && n == |b|
    {
      bytes := bytes + b;
      n := |b|;
    }

    /** `write_all`. */
    method WriteAll(b: seq<byte>)
      modifies this
      ensures bytes == old(bytes) + b
    {
      bytes := bytes + b;
    }

    /** `stream_position`: the number of bytes written. */
    method StreamPosition() returns (p: nat)
      ensures p == |bytes|
    {
      p := |bytes|;
    }
  }

  /** `Sha1` as a running hash: the bytes fed so far. */
  class Hasher {
    var fed: seq<byte>

    constructor ()
      ensures fed == []
    {
      fed := [];
    }

    /** `update`. */
    method Update(b: seq<byte>)
      modifies this
      ensures fed == old(fed) + b
    {
      fed := fed + b;
    }

    /** `finalize`: the digest of everything fed. */
    method Finalize(sha1: HashFn) returns (d: Digest)
      ensures d == sha1(fed)
    {
      d := sha1(fed);
    }
  }

  /** A u32 addition that panics on overflow. */
  function AddU32(a: u32, b: nat): (r: Outcome<u32>)
    ensures r.Ok? <==> a + b < U32_LIMIT
    ensures r.Ok? ==> r.value == a + b
    ensures !r.Ok? ==> r == Panic(ArithmeticOverflow)
  {
    if a + b < U32_LIMIT then Ok(a + b) else Panic(ArithmeticOverflow)
  }

  /** A u32 multiplication that panics on overflow. */
  function MulU32(a: u32, b: u32): (r: Outcome<u32>)
    ensures r.Ok? <==> a * b < U32_LIMIT
    ensures r.Ok? ==> r.value == a * b
    ensures !r.Ok? ==> r == Panic(ArithmeticOverflow)
  {
    var p := a * b;
    assert 0 <= p by {
      assert 0 <= a && 0 <= b;
    }
    if p < U32_LIMIT then Ok(p as u32) else Panic(ArithmeticOverflow)
  }

  /** Lines 18-37: `info_size` and `file_count`, accumulated in u32. */
  method ComputeHeader(files: seq<EntityInfo>) returns (r: Outcome<(u32, u32)>)
    ensures HeaderInfoSize(files) < U32_LIMIT ==> r == Ok((HeaderInfoSize(files), |files|))
    ensures HeaderInfoSize(files) >= U32_LIMIT ==> r == Panic(ArithmeticOverflow)
  {
    var infoSize: u32, fileCount: u32 := 0, 0;
    var i := 0;
    while i < |files|
      invariant 0 <= i <= |files|
      invariant infoSize == SumInfoSizes(files, i) && fileCount == i
    {
      SumInfoSizesMonotone(files, i + 1, |files|);
      infoSize :- AddU32(infoSize, InfoSize(files[i]));
      fileCount :- AddU32(fileCount, 1);
      i := i + 1;
    }
    var u32Size := 4;
    infoSize :- AddU32(infoSize, 1 * u32Size);
    infoSize :- AddU32(infoSize, 1 * u32Size);
    var table :- MulU32(fileCount, 2);
    table :- MulU32(table, u32Size);
    infoSize :- AddU32(infoSize, table);
    infoSize :- AddU32(infoSize, 2 * u32Size);
    infoSize :- AddU32(infoSize, 1 * u32Size);
    return Ok((infoSize, fileCount));
  }

  /** One turn of the record loop (lines 60-72): the entry takes the
      counter as its offset and the writer's position plus the bytes
      buffered so far as its position; its record goes to the writer and
      to the hasher. Returns the entry and the counter after it. */
  method WriteRecord(writer: Writer, hasher: Hasher, file: EntityInfo, offset: nat)
    returns (r: Outcome<(EntityInfo, nat)>)
    modifies writer, hasher
    ensures r.Ok? <==> offset < U32_LIMIT && |old(writer.bytes)| + 4 + |file.name| < U32_LIMIT
    ensures !r.Ok? ==> r == Panic(ArithmeticOverflow)
    ensures r.Ok? ==> r.value.0 == file.(offset := offset, position := |old(writer.bytes)| + 4 + |file.name|)
    ensures r.Ok? ==> r.value.1 == offset + RecordLength(file) + file.size
    ensures r.Ok? ==> writer.bytes == old(writer.bytes) + Record(r.value.0)
    ensures r.Ok? ==> hasher.fed == old(hasher.fed) + Record(r.value.0)
  {
    var counter := offset;
    var memory := new Writer();
    if counter >= U32_LIMIT {
      return Panic(ArithmeticOverflow);
    }
    var entry := file.(offset := counter);
    var n := memory.Write(EncodeU32(FileNameSize(entry.name)));
    counter := counter + n;
    n := memory.Write(entry.name);
    counter := counter + n;
    var streamPos := writer.StreamPosition();
    var buffered := |memory.bytes|;
    if streamPos + buffered >= U32_LIMIT {
      return Panic(ArithmeticOverflow);
    }
    entry := entry.(position := streamPos + buffered);
    n := memory.Write(Zeros(4));
    counter := counter + n;
    n := memory.Write(EncodeU32(entry.offset));
    counter := counter + n;
    n := memory.Write(EncodeU32(entry.size));
    counter := counter + n;
    counter := counter + entry.size;
    var bytes := memory.bytes;
    RecordBytes(bytes, entry);
    writer.WriteAll(bytes);
    hasher.Update(bytes);
    return Ok((entry, counter));
  }

  lemma RecordBytes(bytes: seq<byte>, e: EntityInfo)
    requires bytes == [] + EncodeU32(FileNameSize(e.name)) + e.name + Zeros(4) + EncodeU32(e.offset) + EncodeU32(e.size)
    ensures bytes == Record(e)
  {
  }

  /** After `i` turns of the record loop: the first `i` entries carry
      their offsets and positions, the others are as they came in. */
  ghost predicate Progress(files: seq<EntityInfo>, updated: seq<EntityInfo>, i: nat)
  {
    && i <= |files| == |updated|
    && (forall j :: 0 <= j < i ==> EntryFits(files, j) && updated[j] == Assign(files, j))
    && (forall j :: i <= j < |files| ==> updated[j] == files[j])
  }

  /** The record loop's turn for entry `i`, in terms of the whole list. */
  method AssignNext(writer: Writer, hasher: Hasher, files: seq<EntityInfo>,
                    updated: seq<EntityInfo>, i: nat, counter: nat)
    returns (r: Outcome<(seq<EntityInfo>, nat)>)
    requires i < |files| && Progress(files, updated, i)
    requires counter == RecordedOffset(files, i)
    requires |writer.bytes| == INDEX_START + 4 + MetaLen(files, i)
    modifies writer, hasher
    ensures r.Ok? <==> EntryFits(files, i)
    ensures !r.Ok? ==> r == Panic(ArithmeticOverflow)
    ensures r.Ok? ==> Progress(files, r.value.0, i + 1) && r.value.1 == RecordedOffset(files, i + 1)
    ensures r.Ok? ==> Records(r.value.0, i + 1) == Records(updated, i) + Record(Assign(files, i))
    ensures r.Ok? ==> writer.bytes == old(writer.bytes) + Record(Assign(files, i))
    ensures r.Ok? ==> hasher.fed == old(hasher.fed) + Record(Assign(files, i))
    ensures r.Ok? ==> |writer.bytes| == INDEX_START + 4 + MetaLen(files, i + 1)
  {
    assert |writer.bytes| + 4 + |updated[i].name| == Position(files, i);
    var step := WriteRecord(writer, hasher, updated[i], counter);
    if step.IsFailure() {
      return step.PropagateFailure();
    }
    var (entry, next) := step.value;
    var stepped := updated[i := entry];
    AssignedStep(files, updated, i, stepped);
    return Ok((stepped, next));
  }

  lemma AssignedStep(files: seq<EntityInfo>, updated: seq<EntityInfo>, i: nat, stepped: seq<EntityInfo>)
    requires i < |files| && Progress(files, updated, i) && EntryFits(files, i)
    requires stepped == updated[i := Assign(files, i)]
    ensures Progress(files, stepped, i + 1)
    ensures Records(stepped, i + 1) == Records(updated, i) + Record(Assign(files, i))
  {
    ProgressStep(files, updated, i, stepped);
    RecordsAgree(updated, stepped, i);
  }

  lemma ProgressStep(files: seq<EntityInfo>, updated: seq<EntityInfo>, i: nat, stepped: seq<EntityInfo>)
    requires i < |files| && Progress(files, updated, i) && EntryFits(files, i)
    requires stepped == updated[i := Assign(files, i)]
    ensures Progress(files, stepped, i + 1)
  {
  }

  lemma AppendAssoc(a: seq<byte>, b: seq<byte>, c: seq<byte>)
    ensures (a + b) + c == a + (b + c)
  {
  }

  /** The record loop's invariant: `i` entries assigned, the counter at
      entry `i`'s offset, and their records written and hashed. */
  ghost predicate RecordLoop(files: seq<EntityInfo>, updated: seq<EntityInfo>, i: nat, counter: nat,
                             bytes: seq<byte>, written: seq<byte>, fed: seq<byte>, fed0: seq<byte>)
  {
    && Progress(files, updated, i)
    && counter == RecordedOffset(files, i)
    && |bytes| == INDEX_START + 4 + MetaLen(files, i)
    && bytes == written + Records(updated, i)
    && fed == fed0 + Records(updated, i)
  }

  lemma RecordLoopStep(files: seq<EntityInfo>, updated: seq<EntityInfo>, i: nat, counter: nat,
                       bytes: seq<byte>, written: seq<byte>, fed: seq<byte>, fed0: seq<byte>,
                       updated': seq<EntityInfo>, counter': nat, bytes': seq<byte>, fed': seq<byte>)
    requires i < |files| && RecordLoop(files, updated, i, counter, bytes, written, fed, fed0)
    requires Progress(files, updated', i + 1) && counter' == RecordedOffset(files, i + 1)
    requires Records(updated', i + 1) == Records(updated, i) + Record(Assign(files, i))
    requires bytes' == bytes + Record(Assign(files, i)) && fed' == fed + Record(Assign(files, i))
    requires |bytes'| == INDEX_START + 4 + MetaLen(files, i + 1)
    ensures RecordLoop(files, updated', i + 1, counter', bytes', written, fed', fed0)
  {
    AppendAssoc(written, Records(updated, i), Record(Assign(files, i)));
    AppendAssoc(fed0, Records(updated, i), Record(Assign(files, i)));
  }

  /** A finished record loop has assigned every entry. */
  lemma ProgressComplete(files: seq<EntityInfo>, updated: seq<EntityInfo>)
    requires Progress(files, updated, |files|)
    ensures forall j :: 0 <= j < |files| ==> EntryFits(files, j)
    ensures updated == Assigned(files)
  {
    forall j | 0 <= j < |files|
      ensures updated[j] == Assigned(files)[j]
    {
      AssignedAt(files, j);
    }
  }

  /** Lines 59-73: the record loop, which sets every entry's offset and
      position in place. */
  method WriteRecords(writer: Writer, hasher: Hasher, files: seq<EntityInfo>, offset: nat)
    returns (r: Outcome<seq<EntityInfo>>)
    requires |writer.bytes| == INDEX_START + 4 && offset == RecordedOffset(files, 0)
    modifies writer, hasher
    ensures r.Ok? <==> forall i :: 0 <= i < |files| ==> EntryFits(files, i)
    ensures !r.Ok? ==> r == Panic(ArithmeticOverflow)
    ensures r.Ok? ==> r.value == Assigned(files)
    ensures r.Ok? ==> writer.bytes == old(writer.bytes) + Records(r.value, |files|)
    ensures r.Ok? ==> hasher.fed == old(hasher.fed) + Records(r.value, |files|)
  {
    ghost var written, fed := writer.bytes, hasher.fed;
    var updated := files;
    var counter := offset;
    var i := 0;
    while i < |files|
      invariant RecordLoop(files, updated, i, counter, writer.bytes, written, hasher.fed, fed)
    {
      label turn:
      var step := AssignNext(writer, hasher, files, updated, i, counter);
      if step.IsFailure() {
        return step.PropagateFailure();
      }
      RecordLoopStep(files, updated, i, counter, old@turn(writer.bytes), written, old@turn(hasher.fed), fed,
                     step.value.0, step.value.1, writer.bytes, hasher.fed);
      updated, counter := step.value.0, step.value.1;
      i := i + 1;
    }
    ProgressComplete(files, updated);
    return Ok(updated);
  }

  /** Lines 76-97: the offset table, built in memory and then written and
      hashed. */
  method WriteOffsetTable(writer: Writer, hasher: Hasher, files: seq<EntityInfo>,
                          updated: seq<EntityInfo>, fileCount: u32, refPos: nat)
    returns (r: Outcome<()>)
    requires HeaderInfoSize(files) < U32_LIMIT && forall i :: 0 <= i < |files| ==> EntryFits(files, i)
    requires updated == Assigned(files) && fileCount == |files| && refPos == INDEX_START
    requires |writer.bytes| == INDEX_START + 4 + MetaLen(files, |files|)
    modifies writer, hasher
    ensures r.Ok? <==> TablePos(files) < U32_LIMIT
    ensures !r.Ok? ==> r == Panic(ArithmeticOverflow)
    ensures r.Ok? ==> writer.bytes == old(writer.bytes) + OffsetTable(files)
    ensures r.Ok? ==> hasher.fed == old(hasher.fed) + OffsetTable(files)
  {
    var tablePosition := writer.StreamPosition();
    var memory := new Writer();
    memory.WriteAll(EncodeU32(fileCount + 1));
    AssignedPositions(files);
    WriteTableEntries(memory, updated, refPos);
    memory.WriteAll(Zeros(8));
    if tablePosition - 3 - 4 >= U32_LIMIT {
      return Panic(ArithmeticOverflow);
    }
    var tablePos := tablePosition - 3 - 4;
    memory.WriteAll(EncodeU32(tablePos));
    var bytes := memory.bytes;
    OffsetTableParts(files, updated, bytes, tablePos);
    writer.WriteAll(bytes);
    hasher.Update(bytes);
    return Ok(());
  }

  lemma OffsetTableParts(files: seq<EntityInfo>, updated: seq<EntityInfo>, bytes: seq<byte>, tablePos: nat)
    requires Fits(files) && updated == Assigned(files) && tablePos == TablePos(files)
    requires forall i :: 0 <= i < |updated| ==> updated[i].position >= 7
    requires bytes == EncodeU32(|files| + 1) + TableEntries(updated, |files|) + Zeros(8) + EncodeU32(tablePos)
    ensures bytes == OffsetTable(files)
  {
  }

  /** Lines 82-85: one pair per entry, its position relative to `ref_pos`
      and four zero bytes. */
  method WriteTableEntries(memory: Writer, updated: seq<EntityInfo>, refPos: nat)
    requires refPos == INDEX_START && forall i :: 0 <= i < |updated| ==> updated[i].position >= 7
    modifies memory
    ensures memory.bytes == old(memory.bytes) + TableEntries(updated, |updated|)
  {
    ghost var start := memory.bytes;
    var i := 0;
    while i < |updated|
      invariant 0 <= i <= |updated|
      invariant memory.bytes == start + TableEntries(updated, i)
    {
      AppendAssoc(start, TableEntries(updated, i), TableEntry(updated[i]));
      memory.WriteAll(EncodeU32(updated[i].position - refPos));
      memory.WriteAll(Zeros(4));
      i := i + 1;
    }
  }

  /** Lines 103-109: every byte of a payload XOR the key byte at its index
      modulo the key length, pushed one at a time. */
  method CipherPayload(buffer: seq<byte>, key: Digest) returns (finalData: seq<byte>)
    ensures finalData == Xor(buffer, key)
  {
    finalData := [];
    var idx := 0;
    while idx < |buffer|
      invariant 0 <= idx <= |buffer| && |finalData| == idx
      invariant forall j :: 0 <= j < idx ==> finalData[j] == XorByte(buffer[j], key[j % |key|])
    {
      finalData := finalData + [XorByte(buffer[idx], key[idx % |key|])];
      idx := idx + 1;
    }
  }

  /** Lines 101-112: the ciphered payloads, in entry order. */
  method WritePayloads(writer: Writer, contents: seq<seq<byte>>, key: Digest)
    modifies writer
    ensures writer.bytes == old(writer.bytes) + Payloads(contents, key)
  {
    var i := 0;
    while i < |contents|
      invariant 0 <= i <= |contents|
      invariant writer.bytes == old(writer.bytes) + Payloads(contents[..i], key)
    {
      var finalData := CipherPayload(contents[i], key);
      PayloadsStep(contents, i, key, old(writer.bytes));
      writer.WriteAll(finalData);
      i := i + 1;
    }
    assert contents[..i] == contents;
  }

  lemma PayloadsStep(contents: seq<seq<byte>>, i: nat, key: Digest, before: seq<byte>)
    requires i < |contents|
    ensures before + Payloads(contents[..i + 1], key) == before + Payloads(contents[..i], key) + Xor(contents[i], key)
  {
    assert contents[..i + 1][..i] == contents[..i];
  }

  /** Lines 50-97: the entry count, the records and the offset table,
      written after the `info_size` field and fed to the hasher. */
  method WriteIndex(writer: Writer, hasher: Hasher, files: seq<EntityInfo>, fileCount: u32, offset: nat)
    returns (r: Outcome<()>)
    requires HeaderInfoSize(files) < U32_LIMIT && fileCount == |files|
    requires |writer.bytes| == INDEX_START && hasher.fed == [] && offset == HeaderInfoSize(files) + 3
    modifies writer, hasher
    ensures r.Ok? <==> Fits(files)
    ensures !r.Ok? ==> r == Panic(ArithmeticOverflow)
    ensures r.Ok? ==> writer.bytes == old(writer.bytes) + IndexBlock(files) && hasher.fed == IndexBlock(files)
  {
    var counter := offset;
    var refPos := writer.StreamPosition();
    var n := writer.Write(EncodeU32(fileCount));
    counter := counter + n;
    hasher.Update(EncodeU32(fileCount));
    ghost var start := writer.bytes;
    var updated :- WriteRecords(writer, hasher, files, counter);
    ghost var records := Records(updated, |files|);
    AssignedMetaLen(files, |files|);
    var tableDone :- WriteOffsetTable(writer, hasher, files, updated, fileCount, refPos);
    HashedIsIndex(files, records, hasher.fed);
    Regroup(old(writer.bytes), EncodeU32(fileCount), records, OffsetTable(files));
    return Ok(());
  }

  /** Lines 19 and 39-48: the magic, the version and `info_size`; the
      offset counter starts at `info_size` and counts the first two. */
  method WritePrologue(writer: Writer, infoSize: u32) returns (offset: nat)
    requires writer.bytes == []
    modifies writer
    ensures writer.bytes == FILE_MAGIC + [FILE_VERSION] + EncodeU32(infoSize)
    ensures offset == infoSize + 3
  {
    offset := 0;
    offset := offset + infoSize;
    var n := writer.Write(FILE_MAGIC);
    offset := offset + n;
    n := writer.Write([FILE_VERSION]);
    offset := offset + n;
    writer.WriteAll(EncodeU32(infoSize));
  }

  /** The writing half of `pack` (lines 18-114) for the entries and the
      contents of their files; the output file ends up holding the bytes
      written. */
  method WriteArchive(files: seq<EntityInfo>, contents: seq<seq<byte>>, sha1: HashFn)
    returns (r: Outcome<seq<byte>>)
    ensures Fits(files) ==> r == Ok(PackedImage(files, contents, sha1))
    ensures !Fits(files) ==> r == Panic(ArithmeticOverflow)
  {
    var header := ComputeHeader(files);
    if header.IsFailure() {
      return header.PropagateFailure();
    }
    var (infoSize, fileCount) := header.value;
    var writer := new Writer();
    var offset := WritePrologue(writer, infoSize);
    ghost var prologue := writer.bytes;
    var hasher := new Hasher();
    var indexDone :- WriteIndex(writer, hasher, files, fileCount, offset);
    var key := hasher.Finalize(sha1);
    ghost var index := writer.bytes;
    WritePayloads(writer, contents, key);
    ImageFromParts(files, contents, sha1, prologue, hasher.fed, index, writer.bytes);
    return Ok(writer.bytes);
  }

  lemma ImageFromParts(files: seq<EntityInfo>, contents: seq<seq<byte>>, sha1: HashFn,
                       prologue: seq<byte>, fed: seq<byte>, index: seq<byte>, bytes: seq<byte>)
    requires Fits(files)
    requires prologue == FILE_MAGIC + [FILE_VERSION] + EncodeU32(HeaderInfoSize(files))
    requires fed == IndexBlock(files) && index == prologue + fed
    requires bytes == index + Payloads(contents, sha1(fed))
    ensures bytes == PackedImage(files, contents, sha1)
  {
  }

  lemma HashedIsIndex(files: seq<EntityInfo>, records: seq<byte>, fed: seq<byte>)
    requires Fits(files)
    requires records == Records(Assigned(files), |files|)
    requires fed == EncodeU32(|files|) + records + OffsetTable(files)
    ensures fed == IndexBlock(files)
  {
  }

  lemma Regroup(p: seq<byte>, c: seq<byte>, r: seq<byte>, t: seq<byte>)
    ensures p + c + r + t == p + (c + r + t)
  {
  }

  /** `pack` (lines 7-117) on an input path whose file system node is
      `node`; a regular file's content is what lines 102-105 read back. */
  method Pack(input: seq<byte>, node: Node, sha1: HashFn) returns (r: Outcome<seq<byte>>)
    ensures r == PackOutput(input, node, sha1)
  {
    if node.Directory? {
      return Panic(Unimplemented);
    }
    var entity :- EntityFrom(input, node);
    var files := [entity];
    r := WriteArchive(files, [node.content], sha1);
  }
}

