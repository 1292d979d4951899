/** `unpack`: the choice of the target folder, the dry run, the
    not-a-folder check and, per entry, the read of its payload from the
    archive file and the XOR decipher into a buffer of the same size.
    The file system is seen through three parameters: what the target
    path holds, the bytes of the archive file, and whether `fs::write`
    succeeds for a path. */
module Unpacker {
  import opened Bytes
  import opened Outcomes
  import opened Cipher
  import opened Archive
  import opened Paths

  /** What the target folder's path names before unpacking. */
  datatype PathKind = Absent | Folder | NotAFolder

  /** One `fs::write` call: the path, the deciphered bytes, and whether the
      write succeeded (a failure is printed and the loop goes on). */
  datatype FileWrite = FileWrite(path: seq<byte>, data: seq<byte>, written: bool)

  /** Lines 10-20: the caller's target, or else the stem of the archive's
      file name (its last component without the final extension). */
  function TargetFolder(target: Option<seq<byte>>, filename: seq<byte>): (r: Outcome<seq<byte>>)
    ensures target.Some? ==> r == Ok(target.value)
    ensures target.None? && FileName(filename).Some? ==> r == Ok(Stem(FileName(filename).value))
    ensures target.None? && FileName(filename).None? ==> r == Panic(NoFileStem)
  {
    match target
    case Some(name) => Ok(name)
    case None =>
      match FileStem(filename)
      case None => Panic(NoFileStem)
      case Some(stem) => Ok(stem)
  }

  /** An archive at `dir/base.ext`, where the extension holds no '.',
      unpacks into the folder `base`. */
  lemma TargetIsStem(dir: seq<byte>, base: seq<byte>, ext: seq<byte>)
    requires Plain(base) && SEP !in ext && DOT !in ext
    ensures TargetFolder(None, Join(dir, base + [DOT] + ext)) == Ok(base)
  {
    var name := base + [DOT] + ext;
    assert Plain(name) by {
      assert name[0] == base[0] && name[|base|] == DOT;
      assert |name| == 2 ==> name[..1] == base;
    }
    JoinPlain(dir, name);
    StemBeforeLastDot(base, ext);
  }

  /** The last '.' of `base + "." + ext` is the one before `ext`. */
  lemma StemBeforeLastDot(base: seq<byte>, ext: seq<byte>)
    requires |base| > 0 && DOT !in ext
    ensures Stem(base + [DOT] + ext) == base
  {
    var name := base + [DOT] + ext;
    var r := Stem(name);
    assert name[|base|] == DOT;
    assert name[|base| + 1..] == ext;
    NotInSlice(name, |r| + 1, DOT);
    NotInSlice(name, |base| + 1, DOT);
    assert r == name[..|base|] == base;
  }

  lemma NotInSlice(s: seq<byte>, a: nat, x: byte)
    requires a <= |s| && x !in s[a..]
    ensures forall j :: a <= j < |s| ==> s[j] != x
  {
    forall j | a <= j < |s|
      ensures s[j] != x
    {
      assert s[j] == s[a..][j - a];
    }
  }

  /** The payload `read_exact` fills: `size` bytes from `offset`. Seeking
      past the end succeeds, and reading nothing there succeeds too. */
  predicate PayloadInStream(stream: seq<byte>, e: EntityInfo)
    ensures PayloadInStream(stream, e) ==> e.size <= |stream|
    ensures e.offset + e.size <= |stream| ==> PayloadInStream(stream, e)
  {
    e.size == 0 || e.offset + e.size <= |stream|
  }

  function Payload(stream: seq<byte>, e: EntityInfo): (r: seq<byte>)
    requires PayloadInStream(stream, e)
    ensures |r| == e.size
  {
    if e.size == 0 then [] else stream[e.offset..e.offset + e.size]
  }

  /** One turn of the entry loop (lines 50-79): the output path must have
      a parent, the payload must be in the archive file, and the write
      gets the deciphered payload. */
  function Extract(folder: seq<byte>, e: EntityInfo, stream: seq<byte>, key: Digest,
                   writeOk: seq<byte> -> bool): (r: Outcome<FileWrite>)
    ensures !HasParent(Join(folder, e.name)) ==> r == Panic(NoParent)
    ensures HasParent(Join(folder, e.name)) && !PayloadInStream(stream, e) ==> r == Panic(PayloadReadShort)
    ensures r.Ok? <==> HasParent(Join(folder, e.name)) && PayloadInStream(stream, e)
    ensures r.Ok? ==> r.value.path == Join(folder, e.name) && |r.value.data| == e.size
    ensures r.Ok? ==> Xor(r.value.data, key) == Payload(stream, e)
  {
    var path := Join(folder, e.name);
    if !HasParent(path) then Panic(NoParent)
    else if !PayloadInStream(stream, e) then Panic(PayloadReadShort)
    else
      XorInvolutive(Payload(stream, e), key);
      Ok(FileWrite(path, Xor(Payload(stream, e), key), writeOk(path)))
  }

  /** The outcome of every entry's turn, in the archive's order. */
  function Turns(folder: seq<byte>, es: seq<EntityInfo>, stream: seq<byte>, key: Digest,
                 writeOk: seq<byte> -> bool): (r: seq<Outcome<FileWrite>>)
    ensures |r| == |es|
    ensures forall j :: 0 <= j < |es| ==> r[j] == Extract(folder, es[j], stream, key, writeOk)
  {
    seq(|es|, j requires 0 <= j < |es| => Extract(folder, es[j], stream, key, writeOk))
  }

  /** The first `k` turns of a loop that stops at the first failing turn:
      the values of the turns before it and the loop's outcome. */
  function Run<T>(turns: seq<Outcome<T>>, k: nat): (r: (Outcome<()>, seq<T>))
    requires k <= |turns|
    ensures |r.1| <= k
    ensures r.0.Ok? <==> |r.1| == k
    ensures forall j :: 0 <= j < |r.1| ==> turns[j] == Ok(r.1[j])
    ensures !r.0.Ok? ==> |r.1| < k && !turns[|r.1|].Ok? && r.0 == turns[|r.1|].PropagateFailure()
  {
    if k == 0 then (Ok(()), [])
    else
      var before := Run(turns, k - 1);
      if !before.0.Ok? then before
      else
        match turns[k - 1]
        case Ok(w) => (Ok(()), before.1 + [w])
        case Err(e) => (Err(e), before.1)
        case Panic(p) => (Panic(p), before.1)
  }

  /** What `unpack` does: its result and the files it writes, in order. */
  function UnpackOutput(archive: PfsArchive, target: Option<seq<byte>>, dry: bool, stream: seq<byte>,
                        targetKind: PathKind, writeOk: seq<byte> -> bool): (r: (Outcome<()>, seq<FileWrite>))
    ensures dry && TargetFolder(target, archive.filename).Ok? ==> r == (Ok(()), [])
    ensures !TargetFolder(target, archive.filename).Ok? ==> r == (Panic(NoFileStem), [])
    ensures !dry && targetKind == NotAFolder && TargetFolder(target, archive.filename).Ok? ==>
      r == (Err(NotFolder(TargetFolder(target, archive.filename).value)), [])
    ensures r.0.Err? ==> r.1 == [] && targetKind == NotAFolder
    ensures |r.1| <= |archive.files|
  {
    match TargetFolder(target, archive.filename)
    case Err(e) => (Err(e), [])
    case Panic(p) => (Panic(p), [])
    case Ok(folder) =>
      if dry then (Ok(()), [])
      else if targetKind == NotAFolder then (Err(NotFolder(folder)), [])
      else Run(Turns(folder, archive.files, stream, archive.key, writeOk), |archive.files|)
  }

  /** One more turn after `i` turns that all succeeded. */
  lemma RunStep<T>(turns: seq<Outcome<T>>, i: nat, done: seq<T>)
    requires i < |turns| && Run(turns, i) == (Ok(()), done)
    ensures turns[i].Ok? ==> Run(turns, i + 1) == (Ok(()), done + [turns[i].value])
    ensures !turns[i].Ok? ==> Run(turns, i + 1) == (turns[i].PropagateFailure(), done)
  {
  }

  /** The loop stops at its first failing turn: later turns change nothing. */
  lemma {:induction false} RunFailureSticks<T>(turns: seq<Outcome<T>>, k: nat, n: nat)
    requires k <= n <= |turns| && !Run(turns, k).0.Ok?
    ensures Run(turns, n) == Run(turns, k)
    decreases n
  {
    if n > k {
      RunFailureSticks(turns, k, n - 1);
    }
  }

  /** Two loops whose turns fail alike, with the same failures, run alike:
      they stop at the same turn with the same outcome. */
  lemma {:induction false} RunAlike<T>(ts1: seq<Outcome<T>>, ts2: seq<Outcome<T>>, k: nat)
    requires k <= |ts1| == |ts2|
    requires forall j :: 0 <= j < |ts1| ==> ts1[j].Ok? == ts2[j].Ok? && (!ts1[j].Ok? ==> ts1[j] == ts2[j])
    ensures Run(ts1, k).0 == Run(ts2, k).0 && |Run(ts1, k).1| == |Run(ts2, k).1|
  {
    if k > 0 {
      RunAlike(ts1, ts2, k - 1);
    }
  }

  /** Whether the writes succeed does not matter to the loop: a failed
      `fs::write` is reported and the loop goes on, so the outcome, the
      paths and the bytes written are the same whatever the file system says. */
  lemma WritesDoNotStopTheLoop(folder: seq<byte>, es: seq<EntityInfo>, stream: seq<byte>,
                               key: Digest, ok1: seq<byte> -> bool, ok2: seq<byte> -> bool)
    ensures Run(Turns(folder, es, stream, key, ok1), |es|).0 == Run(Turns(folder, es, stream, key, ok2), |es|).0
    ensures |Run(Turns(folder, es, stream, key, ok1), |es|).1| == |Run(Turns(folder, es, stream, key, ok2), |es|).1|
    ensures forall j :: 0 <= j < |Run(Turns(folder, es, stream, key, ok1), |es|).1| ==>
      Run(Turns(folder, es, stream, key, ok1), |es|).1[j].path == Run(Turns(folder, es, stream, key, ok2), |es|).1[j].path &&
      Run(Turns(folder, es, stream, key, ok1), |es|).1[j].data == Run(Turns(folder, es, stream, key, ok2), |es|).1[j].data
  {
    RunAlike(Turns(folder, es, stream, key, ok1), Turns(folder, es, stream, key, ok2), |es|);
  }

  // ---------------------------------------------------------------------
  // `unpack` as the source runs it

  /** Lines 62-74: the payload read into `buffer`, deciphered into
      `final_data` of the same size, byte by byte. */
  method Decipher(buffer: seq<byte>, key: Digest) returns (r: seq<byte>)
    ensures r == Xor(buffer, key)
  {
    var finalData := new byte[|buffer|](_ => 0);
    var keyLength := |key|;
    for idx := 0 to |buffer|
      invariant forall j :: 0 <= j < idx ==> finalData[j] == XorByte(buffer[j], key[j % keyLength])
    {
      finalData[idx] := XorByte(buffer[idx], key[idx % keyLength]);
    }
    return finalData[..];
  }

  /** One turn of the entry loop (lines 50-79), reading the payload through
      the archive file's cursor. */
  method ExtractEntry(reader: Reader, folder: seq<byte>, e: EntityInfo, key: Digest, writeOk: seq<byte> -> bool)
    returns (r: Outcome<FileWrite>)
    requires reader.Valid()
    modifies reader
    ensures reader.Valid()
    ensures r == Extract(folder, e, reader.data, key, writeOk)
  {
    var filePath := Join(folder, e.name);
    if !HasParent(filePath) {
      return Panic(NoParent);
    }
    var buffer: seq<byte>;
    if e.offset > |reader.data| {
      // the seek lands past the end: only an empty read succeeds there
      if e.size > 0 {
        return Panic(PayloadReadShort);
      }
      buffer := [];
    } else {
      reader.Seek(e.offset);
      var got := reader.ReadExact(e.size);
      if got.None? {
        return Panic(PayloadReadShort);
      }
      buffer := got.value;
    }
    assert PayloadInStream(reader.data, e) && buffer == Payload(reader.data, e);
    var finalData := Decipher(buffer, key);
    return Ok(FileWrite(filePath, finalData, writeOk(filePath)));
  }

  /** `unpack`: its result and the `fs::write` calls it makes, in order. */
  method Unpack(archive: PfsArchive, target: Option<seq<byte>>, dry: bool, stream: seq<byte>,
                targetKind: PathKind, writeOk: seq<byte> -> bool)
    returns (r: Outcome<()>, writes: seq<FileWrite>)
    ensures (r, writes) == UnpackOutput(archive, target, dry, stream, targetKind, writeOk)
  {
    var folder := TargetFolder(target, archive.filename);
    if !folder.Ok? {
      return folder.PropagateFailure(), [];
    }
    if dry {
      return Ok(()), [];
    }
    if targetKind == NotAFolder {
      return Err(NotFolder(folder.value)), [];
    }
    // an absent target folder is created here
    r, writes := ExtractAll(folder.value, archive.files, stream, archive.key, writeOk);
  }

  /** Lines 47-82: the entry loop over one cursor on the archive file. */
  method ExtractAll(folder: seq<byte>, files: seq<EntityInfo>, stream: seq<byte>, key: Digest,
                    writeOk: seq<byte> -> bool)
    returns (r: Outcome<()>, writes: seq<FileWrite>)
    ensures (r, writes) == Run(Turns(folder, files, stream, key, writeOk), |files|)
  {
    ghost var turns := Turns(folder, files, stream, key, writeOk);
    writes := [];
    var reader := new Reader(stream);
    for i := 0 to |files|
      invariant reader.Valid() && reader.data == stream
      invariant Run(turns, i) == (Ok(()), writes)
    {
      var w := ExtractEntry(reader, folder, files[i], key, writeOk);
      RunStep(turns, i, writes);
      if !w.Ok? {
        RunFailureSticks(turns, i + 1, |files|);
        return w.PropagateFailure(), writes;
      }
      writes := writes + [w.value];
    }
    return Ok(()), writes;
  }
}
