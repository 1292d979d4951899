/** What the three operations promise together: `from_file` reads back the
    index that `pack` wrote, with the key `pack` ciphered the payloads with,
    and `unpack` of a packed file writes the original bytes again. */
module RoundTrip {
  import opened Bytes
  import opened Outcomes
  import opened Cipher
  import opened Archive
  import opened Paths
  import opened Packer
  import opened Unpacker

  /** A record written by `pack` parses back into its name, the position
      of its skip field, its offset and its size. */
  lemma ParseRecord(data: seq<byte>, pos: nat, e: EntityInfo, next: nat)
    requires |e.name| < U32_LIMIT && next == pos + RecordLength(e) && next <= |data|
    requires data[pos..next] == Record(e)
    ensures ParseEntry(data, pos)
         == Ok((EntityInfo([], Normalize(e.name), TruncU32(pos + 4 + |e.name|), e.offset, e.size), next))
  {
    var n := |e.name|;
    var rec := Record(e);
    RecordLayout(e);
    assert rec[0..4] == EncodeU32(n);
    FieldAt(data, pos, rec, 0, EncodeU32(n), pos);
    FieldAt(data, pos, rec, 4, e.name, pos + 4);
    FieldAt(data, pos, rec, 8 + n, EncodeU32(e.offset), pos + 8 + n);
    FieldAt(data, pos, rec, 12 + n, EncodeU32(e.size), pos + 12 + n);
  }

  /** Entry `i` as `from_file` reads it from a packed image: no source
      path, the name with '\' replaced, and the position and offset the
      packer recorded. */
  function ParsedEntry(files: seq<EntityInfo>, i: nat): (e: EntityInfo)
    requires i < |files| && EntryFits(files, i)
    ensures e.name == Normalize(files[i].name) && e.size == files[i].size && e.path == []
    ensures e.offset == Assign(files, i).offset && e.position == Assign(files, i).position
  {
    EntityInfo([], Normalize(files[i].name), Position(files, i), RecordedOffset(files, i), files[i].size)
  }

  /** The first `k` entries as `from_file` reads them. */
  function ParsedEntries(files: seq<EntityInfo>, k: nat): (r: seq<EntityInfo>)
    requires k <= |files| && forall i :: 0 <= i < |files| ==> EntryFits(files, i)
    ensures |r| == k && forall i :: 0 <= i < k ==> r[i] == ParsedEntry(files, i)
  {
    if k == 0 then [] else ParsedEntries(files, k - 1) + [ParsedEntry(files, k - 1)]
  }

  /** Record `i` of the entries, with its offset and position assigned,
      sits in `img` where the packer writes it. */
  predicate RecordAt(img: seq<byte>, files: seq<EntityInfo>, i: nat)
    requires i < |files| && EntryFits(files, i)
  {
    && INDEX_START + 4 + MetaLen(files, i) + RecordLength(files[i]) <= |img|
    && img[INDEX_START + 4 + MetaLen(files, i)..INDEX_START + 4 + MetaLen(files, i) + RecordLength(files[i])]
       == Record(Assign(files, i))
  }

  /** Every record is where the packer writes it. */
  lemma RecordsOfImage(files: seq<EntityInfo>, contents: seq<seq<byte>>, sha1: HashFn, img: seq<byte>)
    requires Fits(files) && img == PackedImage(files, contents, sha1)
    ensures INDEX_START + 4 <= |img|
    ensures forall i :: 0 <= i < |files| ==> RecordAt(img, files, i)
  {
    PrologueBytes(files, contents, sha1, img);
    forall i | 0 <= i < |files|
      ensures RecordAt(img, files, i)
    {
      RecordInImage(files, contents, sha1, i, img, INDEX_START + 4 + MetaLen(files, i));
    }
  }

  /** The entry loop of `from_file` over records that parse one after
      the other: turn `i` starts at cursor `i` and ends at cursor `i + 1`. */
  lemma {:induction false} EntriesInSteps(img: seq<byte>, es: seq<EntityInfo>, cs: seq<nat>, k: nat,
                                          start: nat, end: nat)
    requires |cs| == |es| + 1 && k <= |es| && start == cs[0] <= |img| && end == cs[k]
    requires forall i :: 0 <= i < |es| ==> TurnParses(img, es, cs, i)
    ensures ParseEntries(img, start, k) == Ok((es[..k], end))
  {
    if k > 0 {
      EntriesInSteps(img, es, cs, k - 1, start, cs[k - 1]);
      assert TurnParses(img, es, cs, k - 1);
      ParseEntriesStep(img, start, k - 1, es[..k - 1], cs[k - 1]);
      PrefixGrows(es, k);
    }
  }

  lemma PrefixGrows(es: seq<EntityInfo>, k: nat)
    requires 0 < k <= |es|
    ensures es[..k] == es[..k - 1] + [es[k - 1]]
  {
  }

  /** Turn `i` of the entry loop reads entry `i` from cursor `i` to cursor `i + 1`. */
  predicate TurnParses(img: seq<byte>, es: seq<EntityInfo>, cs: seq<nat>, i: nat)
    requires i < |es| && |cs| == |es| + 1
  {
    ParseEntry(img, cs[i]) == Ok((es[i], cs[i + 1]))
  }

  /** Where record `i` starts, for `i` up to the count: right after the
      records before it. */
  function Cursors(files: seq<EntityInfo>): (cs: seq<nat>)
    ensures |cs| == |files| + 1
    ensures forall i :: 0 <= i <= |files| ==> cs[i] == INDEX_START + 4 + MetaLen(files, i)
  {
    seq(|files| + 1, i requires 0 <= i <= |files| => INDEX_START + 4 + MetaLen(files, i))
  }

  /** The entry loop of `from_file`, run over the records the packer
      writes, reads all of them back in order and stops at the end of the
      last one. */
  lemma {:induction false} EntriesOfRecords(files: seq<EntityInfo>, img: seq<byte>)
    requires (forall i :: 0 <= i < |files| ==> EntryFits(files, i)) && INDEX_START + 4 <= |img|
    requires forall i :: 0 <= i < |files| ==> RecordAt(img, files, i)
    ensures ParseEntries(img, INDEX_START + 4, |files|)
         == Ok((ParsedEntries(files, |files|), INDEX_START + 4 + MetaLen(files, |files|)))
  {
    var es, cs := ParsedEntries(files, |files|), Cursors(files);
    AllTurnsParse(files, img, es, cs);
    assert es[..|es|] == es;
    EntriesInSteps(img, es, cs, |es|, INDEX_START + 4, INDEX_START + 4 + MetaLen(files, |files|));
  }

  lemma AllTurnsParse(files: seq<EntityInfo>, img: seq<byte>, es: seq<EntityInfo>, cs: seq<nat>)
    requires forall i :: 0 <= i < |files| ==> EntryFits(files, i)
    requires forall i :: 0 <= i < |files| ==> RecordAt(img, files, i)
    requires es == ParsedEntries(files, |files|) && cs == Cursors(files)
    ensures forall i :: 0 <= i < |es| ==> TurnParses(img, es, cs, i)
  {
    forall i | 0 <= i < |es|
      ensures TurnParses(img, es, cs, i)
    {
      RecordParses(files, i, img, es, cs);
    }
  }

  /** Record `k`, where the packer put it, parses into entry `k`. */
  lemma RecordParses(files: seq<EntityInfo>, k: nat, img: seq<byte>, es: seq<EntityInfo>, cs: seq<nat>)
    requires k < |files| && (forall i :: 0 <= i < |files| ==> EntryFits(files, i)) && RecordAt(img, files, k)
    requires es == ParsedEntries(files, |files|) && cs == Cursors(files)
    ensures TurnParses(img, es, cs, k)
  {
    var at, next := cs[k], cs[k + 1];
    assert at == INDEX_START + 4 + MetaLen(files, k);
    assert next == at + RecordLength(files[k]);
    var e := Assign(files, k);
    assert es[k] == ParsedEntry(files, k)
        == EntityInfo([], Normalize(e.name), TruncU32(at + 4 + |e.name|), e.offset, e.size);
    ParseRecord(img, at, e, next);
  }

  /** The header `from_file` reads from a packed image: version '8', the
      `info_size` and the count `pack` wrote. */
  lemma HeaderOfImage(files: seq<EntityInfo>, contents: seq<seq<byte>>, sha1: HashFn, img: seq<byte>)
    requires Fits(files) && img == PackedImage(files, contents, sha1)
    ensures |files| < U32_LIMIT
    ensures ParseHeader(img) == Ok((V8, HeaderInfoSize(files), |files|))
  {
    PrologueBytes(files, contents, sha1, img);
    CountBytes(files, contents, sha1, img);
    HeaderOfBytes(img, HeaderInfoSize(files), |files|);
  }

  /** A stream that starts with the magic, version '8' and two encoded
      words has that header. */
  lemma HeaderOfBytes(data: seq<byte>, infoSize: u32, count: u32)
    requires |data| >= 11 && data[..3] == [0x70, 0x66, 0x38]
    requires data[3..7] == EncodeU32(infoSize) && data[7..11] == EncodeU32(count)
    ensures ParseHeader(data) == Ok((V8, infoSize, count))
  {
    assert data[..2] == data[..3][..2];
  }

  /** The key `from_file` derives from a packed image is the digest `pack`
      ciphered the payloads with, when no name is empty. */
  lemma KeyOfImage(files: seq<EntityInfo>, contents: seq<seq<byte>>, sha1: HashFn, img: seq<byte>)
    requires Fits(files) && img == PackedImage(files, contents, sha1)
    requires forall i :: 0 <= i < |files| ==> |files[i].name| > 0
    ensures ArchiveKey(img, V8, HeaderInfoSize(files), sha1) == Ok(sha1(IndexBlock(files)))
  {
    PrologueBytes(files, contents, sha1, img);
    InfoSizeIsIndexLength(files);
  }

  /** `from_file` on the bytes `pack` wrote: the entries in order, with the
      positions and offsets `pack` recorded, and the key `pack` used. */
  lemma ParsePacked(files: seq<EntityInfo>, contents: seq<seq<byte>>, sha1: HashFn, img: seq<byte>,
                    filename: seq<byte>)
    requires Fits(files) && img == PackedImage(files, contents, sha1)
    requires forall i :: 0 <= i < |files| ==> |files[i].name| > 0
    ensures ParseArchive(img, filename, sha1) == Ok(PfsArchive(filename, ParsedEntries(files, |files|), sha1(IndexBlock(files))))
  {
    HeaderOfImage(files, contents, sha1, img);
    RecordsOfImage(files, contents, sha1, img);
    EntriesOfRecords(files, img);
    KeyOfImage(files, contents, sha1, img);
  }

  /** The ciphered payloads start with the first content's. */
  lemma {:induction false} PayloadsHead(contents: seq<seq<byte>>, key: Digest)
    requires |contents| > 0
    ensures |contents[0]| <= |Payloads(contents, key)|
    ensures Payloads(contents, key)[..|contents[0]|] == Xor(contents[0], key)
  {
    var n := |contents|;
    if n == 1 {
      assert Payloads(contents, key) == Payloads([], key) + Xor(contents[0], key);
    } else {
      var init := contents[..n - 1];
      PayloadsHead(init, key);
      assert init[0] == contents[0];
      SliceOfPrefix(Payloads(init, key), Xor(contents[n - 1], key), 0, |contents[0]|);
    }
  }

  /** The first entry's recorded offset is where its ciphered payload
      starts, so reading it back yields the ciphered first content. */
  lemma FirstPayload(files: seq<EntityInfo>, contents: seq<seq<byte>>, sha1: HashFn, img: seq<byte>)
    requires Fits(files) && img == PackedImage(files, contents, sha1) && |files| > 0
    requires forall i :: 0 <= i < |files| ==> |files[i].name| > 0
    requires |contents| > 0 && |contents[0]| == files[0].size
    ensures PayloadInStream(img, ParsedEntry(files, 0))
    ensures Payload(img, ParsedEntry(files, 0)) == Xor(contents[0], sha1(IndexBlock(files)))
  {
    var key := sha1(IndexBlock(files));
    var head := Prologue(files) + IndexBlock(files);
    RecordedOffsetSplit(files, 0);
    PayloadsHead(contents, key);
    PayloadAfterHead(img, head, Payloads(contents, key), ParsedEntry(files, 0), Xor(contents[0], key));
  }

  /** An entry whose offset is the end of `head` and whose size is that of
      the start of `tail` reads that start back. */
  lemma PayloadAfterHead(img: seq<byte>, head: seq<byte>, tail: seq<byte>, e: EntityInfo, part: seq<byte>)
    requires img == head + tail && e.offset == |head| && e.size == |part|
    requires |part| <= |tail| && tail[..|part|] == part
    ensures PayloadInStream(img, e) && Payload(img, e) == part
  {
    assert img[|head|..|head| + |part|] == tail[..|part|];
  }

  /** A single entry fits a u32 layout exactly when its name is shorter
      than 2^32 - 51 bytes: the first payload's offset, `info_size` + 7,
      is the largest counter `pack` computes. */
  lemma SingleEntryFits(e: EntityInfo)
    requires |e.name| > 0
    ensures Fits([e]) <==> |e.name| + 51 < U32_LIMIT
  {
    var files := [e];
    assert MetaLen(files, 1) == RecordLength(e);
    assert Position(files, 0) == 15 + |e.name|;
    assert TablePos(files) == 20 + |e.name|;
    if |e.name| < U32_LIMIT {
      assert SumInfoSizes(files, 1) == 16 + |e.name|;
      assert RecordedOffset(files, 0) == 51 + |e.name|;
    }
    assert Fits(files) <==> EntryFits(files, 0) && HeaderInfoSize(files) < U32_LIMIT && TablePos(files) < U32_LIMIT;
  }

  /** What `pack` does with one regular file: it panics with an overflow
      exactly when the file's name is 2^32 - 51 bytes or longer. */
  lemma PackOverflows(path: seq<byte>, content: seq<byte>, sha1: HashFn, name: seq<byte>)
    requires FileName(path) == Some(name) && |content| < U32_LIMIT
    ensures PackOutput(path, RegularFile(content), sha1) == Panic(ArithmeticOverflow) <==> |name| + 51 >= U32_LIMIT
    ensures PackOutput(path, RegularFile(content), sha1).Ok? <==> |name| + 51 < U32_LIMIT
  {
    SingleEntryFits(EntityInfo(path, name, 0, 0, |content|));
  }

  /** A successful `pack` of one regular file wrote the image of the one
      entry `entity_from` made for it. */
  lemma PackedSingle(path: seq<byte>, content: seq<byte>, sha1: HashFn, img: seq<byte>, name: seq<byte>)
    requires PackOutput(path, RegularFile(content), sha1) == Ok(img) && FileName(path) == Some(name)
    ensures |content| < U32_LIMIT && Plain(name)
    ensures Fits([EntityInfo(path, name, 0, 0, |content|)])
    ensures img == PackedImage([EntityInfo(path, name, 0, 0, |content|)], [content], sha1)
  {
  }

  /** Unpacking the one entry of a packed file into a folder writes the
      entry's original content under its name. */
  lemma ExtractFirst(files: seq<EntityInfo>, content: seq<byte>, sha1: HashFn, img: seq<byte>,
                     folder: seq<byte>, writeOk: seq<byte> -> bool)
    requires Fits(files) && |files| == 1 && Plain(files[0].name) && BACKSLASH !in files[0].name
    requires img == PackedImage(files, [content], sha1) && |content| == files[0].size
    ensures Extract(folder, ParsedEntry(files, 0), img, sha1(IndexBlock(files)), writeOk)
         == Ok(FileWrite(Join(folder, files[0].name), content, writeOk(Join(folder, files[0].name))))
  {
    var name := files[0].name;
    NormalizeKeeps(name);
    JoinPlainHasParent(folder, name);
    FirstPayload(files, [content], sha1, img);
    XorInvolutive(content, sha1(IndexBlock(files)));
  }

  /** `unpack` of an archive with one entry, into the folder its target
      resolves to: that entry's write, and `Ok`. */
  lemma UnpackOne(archive: PfsArchive, entry: EntityInfo, w: FileWrite, target: Option<seq<byte>>,
                  folder: seq<byte>, kind: PathKind, stream: seq<byte>, writeOk: seq<byte> -> bool)
    requires archive.files == [entry] && kind != NotAFolder && TargetFolder(target, archive.filename) == Ok(folder)
    requires Extract(folder, entry, stream, archive.key, writeOk) == Ok(w)
    ensures UnpackOutput(archive, target, false, stream, kind, writeOk) == (Ok(()), [w])
  {
    var turns := Turns(folder, archive.files, stream, archive.key, writeOk);
    assert turns[0] == Ok(w);
    RunStep(turns, 0, []);
    assert [] + [w] == [w];
  }

  /** `from_file` and `unpack` on the image of one packed entry: the
      archive read back, and the entry's content written under its name. */
  lemma UnpackPacked(files: seq<EntityInfo>, content: seq<byte>, sha1: HashFn, img: seq<byte>,
                     archiveName: seq<byte>, target: Option<seq<byte>>, folder: seq<byte>, kind: PathKind,
                     writeOk: seq<byte> -> bool)
    requires Fits(files) && |files| == 1 && Plain(files[0].name) && BACKSLASH !in files[0].name
    requires img == PackedImage(files, [content], sha1) && |content| == files[0].size && kind != NotAFolder
    requires TargetFolder(target, archiveName) == Ok(folder)
    ensures ParseArchive(img, archiveName, sha1)
         == Ok(PfsArchive(archiveName, [ParsedEntry(files, 0)], sha1(IndexBlock(files))))
    ensures UnpackOutput(PfsArchive(archiveName, [ParsedEntry(files, 0)], sha1(IndexBlock(files))),
                         target, false, img, kind, writeOk)
         == (Ok(()), [FileWrite(Join(folder, files[0].name), content, writeOk(Join(folder, files[0].name)))])
  {
    ParseSingle(files, content, sha1, img, archiveName);
    UnpackSingle(files, content, sha1, img, archiveName, target, folder, kind, writeOk);
  }

  /** The archive `from_file` reads back from the image of one entry. */
  lemma ParseSingle(files: seq<EntityInfo>, content: seq<byte>, sha1: HashFn, img: seq<byte>, archiveName: seq<byte>)
    requires Fits(files) && |files| == 1 && |files[0].name| > 0
    requires img == PackedImage(files, [content], sha1)
    ensures ParseArchive(img, archiveName, sha1)
         == Ok(PfsArchive(archiveName, [ParsedEntry(files, 0)], sha1(IndexBlock(files))))
  {
    ParsePacked(files, [content], sha1, img, archiveName);
    assert ParsedEntries(files, |files|) == [ParsedEntry(files, 0)];
  }

  /** `unpack` of that archive writes the entry's content under its name. */
  lemma UnpackSingle(files: seq<EntityInfo>, content: seq<byte>, sha1: HashFn, img: seq<byte>,
                     archiveName: seq<byte>, target: Option<seq<byte>>, folder: seq<byte>, kind: PathKind,
                     writeOk: seq<byte> -> bool)
    requires Fits(files) && |files| == 1 && Plain(files[0].name) && BACKSLASH !in files[0].name
    requires img == PackedImage(files, [content], sha1) && |content| == files[0].size && kind != NotAFolder
    requires TargetFolder(target, archiveName) == Ok(folder)
    ensures UnpackOutput(PfsArchive(archiveName, [ParsedEntry(files, 0)], sha1(IndexBlock(files))),
                         target, false, img, kind, writeOk)
         == (Ok(()), [FileWrite(Join(folder, files[0].name), content, writeOk(Join(folder, files[0].name)))])
  {
    var entry := ParsedEntry(files, 0);
    var path := Join(folder, files[0].name);
    var w := FileWrite(path, content, writeOk(path));
    ExtractFirst(files, content, sha1, img, folder, writeOk);
    UnpackOne(PfsArchive(archiveName, [entry], sha1(IndexBlock(files))), entry, w, target, folder, kind, img, writeOk);
  }

  /** Packing one file, reading the archive back and unpacking it into a
      folder writes that file's bytes again, under its name, and nothing
      else. */
  lemma PackThenUnpack(path: seq<byte>, content: seq<byte>, sha1: HashFn, img: seq<byte>, name: seq<byte>,
                       archiveName: seq<byte>, folder: seq<byte>, kind: PathKind, writeOk: seq<byte> -> bool)
    requires PackOutput(path, RegularFile(content), sha1) == Ok(img)
    requires FileName(path) == Some(name) && BACKSLASH !in name && kind != NotAFolder
    ensures ParseArchive(img, archiveName, sha1).Ok?
    ensures UnpackOutput(ParseArchive(img, archiveName, sha1).value, Some(folder), false, img, kind, writeOk)
         == (Ok(()), [FileWrite(Join(folder, name), content, writeOk(Join(folder, name)))])
  {
    PackedSingle(path, content, sha1, img, name);
    UnpackPacked([EntityInfo(path, name, 0, 0, |content|)], content, sha1, img, archiveName, Some(folder), folder,
                 kind, writeOk);
  }

  /** The same without a target: the file is written again under its name
      in the folder named after the archive's file stem. */
  lemma PackThenUnpackDefault(path: seq<byte>, content: seq<byte>, sha1: HashFn, img: seq<byte>, name: seq<byte>,
                              archiveName: seq<byte>, kind: PathKind, writeOk: seq<byte> -> bool)
    requires PackOutput(path, RegularFile(content), sha1) == Ok(img)
    requires FileName(path) == Some(name) && BACKSLASH !in name && kind != NotAFolder
    requires FileName(archiveName).Some?
    ensures ParseArchive(img, archiveName, sha1).Ok?
    ensures UnpackOutput(ParseArchive(img, archiveName, sha1).value, None, false, img, kind, writeOk)
         == (Ok(()), [FileWrite(Join(Stem(FileName(archiveName).value), name), content,
                                writeOk(Join(Stem(FileName(archiveName).value), name)))])
  {
    PackedSingle(path, content, sha1, img, name);
    UnpackPacked([EntityInfo(path, name, 0, 0, |content|)], content, sha1, img, archiveName, None,
                 Stem(FileName(archiveName).value), kind, writeOk);
  }
}
