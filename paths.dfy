/** The parts of Rust's `std::path` (Unix flavour) that the packer and the
    unpacker rely on, on paths as bytes: `file_name`, `file_stem`, `join`
    and whether `parent` returns a value. A path is a run of segments
    separated by '/'; empty segments and "." segments after the first
    position are not components. */
module Paths {
  import opened Bytes
  import opened Outcomes

  const SEP: byte := 0x2F
  const DOT: byte := 0x2E

  /** A segment that names something: neither empty, nor ".", nor "..". */
  predicate Plain(s: seq<byte>)
  {
    |s| > 0 && SEP !in s && s != [DOT] && s != [DOT, DOT]
  }

  /** The bytes after the last '/', or all of `p` when it has none. */
  function LastSegment(p: seq<byte>): (r: seq<byte>)
    ensures |r| <= |p| && r == p[|p| - |r|..] && SEP !in r
    ensures |r| < |p| ==> p[|p| - |r| - 1] == SEP
  {
    if |p| == 0 || p[|p| - 1] == SEP then []
    else LastSegment(p[..|p| - 1]) + [p[|p| - 1]]
  }

  /** The last segment that is not empty and not ".": the last component,
      when there is one other than the root or a leading ".". */
  function LastNamed(p: seq<byte>): (r: Option<seq<byte>>)
    decreases |p|
    ensures r.Some? ==> |r.value| > 0 && SEP !in r.value && r.value != [DOT]
  {
    var last := LastSegment(p);
    if last != [] && last != [DOT] then Some(last)
    else if |last| == |p| then None
    else LastNamed(p[..|p| - |last| - 1])
  }

  /** `Path::file_name`: the last component, unless it is "..". */
  function FileName(p: seq<byte>): (r: Option<seq<byte>>)
    ensures r.Some? ==> Plain(r.value)
    ensures r.Some? <==> LastNamed(p).Some? && LastNamed(p).value != [DOT, DOT]
  {
    match LastNamed(p)
    case None => None
    case Some(s) => if s == [DOT, DOT] then None else Some(s)
  }


  lemma {:induction false} LastSegmentOfPlain(s: seq<byte>)
    requires SEP !in s
    ensures LastSegment(s) == s
  {
    if |s| > 0 {
      LastSegmentOfPlain(s[..|s| - 1]);
      assert s == s[..|s| - 1] + [s[|s| - 1]];
    }
  }

  /** The name before the final '.', when that '.' is not the first byte. */
  function Stem(name: seq<byte>): (r: seq<byte>)
    decreases |name|
    ensures |r| <= |name| && r == name[..|r|]
    ensures r == name <==> forall i :: 0 < i < |name| ==> name[i] != DOT
    ensures r != name ==> 0 < |r| && name[|r|] == DOT && DOT !in name[|r| + 1..]
  {
    if |name| <= 1 then name
    else if name[|name| - 1] == DOT then name[..|name| - 1]
    else
      var shorter := Stem(name[..|name| - 1]);
      if shorter == name[..|name| - 1] then name else shorter
  }

  /** `Path::file_stem`: the file name without its final extension. */
  function FileStem(p: seq<byte>): (r: Option<seq<byte>>)
    ensures r.Some? <==> FileName(p).Some?
    ensures r.Some? ==> r.value == Stem(FileName(p).value) && |r.value| > 0
  {
    match FileName(p)
    case None => None
    case Some(name) => Some(Stem(name))
  }

  /** `Path::join` (`PathBuf::push`): an absolute `p` replaces the base;
      otherwise `p` is appended, with a '/' unless the base is empty or
      already ends with one. */
  function Join(base: seq<byte>, p: seq<byte>): (r: seq<byte>)
    ensures |p| > 0 && p[0] == SEP ==> r == p
    ensures !(|p| > 0 && p[0] == SEP) ==>
      r == (if |base| == 0 || base[|base| - 1] == SEP then base else base + [SEP]) + p
  {
    if |p| > 0 && p[0] == SEP then p
    else if |base| == 0 || base[|base| - 1] == SEP then base + p
    else base + [SEP] + p
  }

  /** Joining a plain name makes it the file name of the result. */
  lemma JoinPlain(base: seq<byte>, name: seq<byte>)
    requires Plain(name)
    ensures FileName(Join(base, name)) == Some(name)
  {
    var r := Join(base, name);
    LastSegmentOfPlain(name);
    LastSegmentAfterSep(r[..|r| - |name|], name);
  }

  lemma {:induction false} LastSegmentAfterSep(dir: seq<byte>, s: seq<byte>)
    requires SEP !in s && (|dir| == 0 || dir[|dir| - 1] == SEP)
    ensures LastSegment(dir + s) == s
    decreases |s|
  {
    if |s| > 0 {
      LastSegmentAfterSep(dir, s[..|s| - 1]);
      assert (dir + s)[..|dir + s| - 1] == dir + s[..|s| - 1];
    }
  }

  /** Whether `Path::parent` returns a value: it does not for the empty
      path and for a path made of the root alone. */
  predicate HasParent(p: seq<byte>)
  {
    |p| > 0 && (p[0] != SEP || LastNamed(p).Some?)
  }

  /** The empty path and the root have no parent; "." has one. */
  lemma NoParent()
    ensures !HasParent([]) && !HasParent([SEP])
    ensures HasParent([DOT])
  {
    assert LastSegment([SEP]) == [];
    assert [SEP][..0] == [];
    assert LastNamed([]) == None;
  }

  /** A path joined from a plain name has a parent. */
  lemma JoinPlainHasParent(base: seq<byte>, name: seq<byte>)
    requires Plain(name)
    ensures HasParent(Join(base, name))
  {
    JoinPlain(base, name);
  }
}
