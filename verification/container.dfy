/**
 * The `.backup` container format: a 16-byte header (magic `BKUP`, a
 * little-endian u32 version 1, a little-endian u64 manifest length), the
 * manifest bytes, then one frame per file (u16 path length, path, u64 size,
 * 32-byte SHA-256, data). This module holds the format and the parsing steps
 * the three readers share; the readers themselves live in their own modules.
 */
module Container {
  import opened Bytes
  import opened Wrappers
  import Utf8

  const Magic: seq<Byte> := [0x42, 0x4B, 0x55, 0x50]
  const FormatVersion: nat := 1
  const HeaderSize: nat := 16
  const DigestSize: nat := 32
  /** `u16::MAX`: the longest path a frame can carry. */
  const MaxPathLength: nat := 0xFFFF
  /** Bytes of a frame besides its path and data: length, size and digest. */
  const FrameOverhead: nat := 2 + 8 + 32

  /** A SHA-256 digest, `[u8; 32]`. */
  type Digest = s: seq<Byte> | |s| == 32 witness seq(32, i => 0)

  /** The `std::io::ErrorKind`s the readers and the writer can return. */
  datatype IoErrorKind = UnexpectedEof | InvalidData | InvalidInput | Os

  /** One entry of the manifest's `files` list. */
  datatype ManifestFile = ManifestFile(path: seq<Byte>, size: nat, sha256: string)

  /**
   * The embedded JSON manifest. Each reader deserializes it into a struct of
   * its own and ignores unknown fields: `restore` asks for `source` and each
   * file's `size`; `verify` also for `backup_file`, `created_at` and each
   * file's `path`; `inspect` also for each file's `sha256`. A field the
   * reader at hand does not ask for holds an arbitrary value here.
   */
  datatype Manifest = Manifest(source: seq<Byte>, backupFile: seq<Byte>, createdAt: nat, files: seq<ManifestFile>)

  /**
   * One frame as it lies in the archive. `data` may be shorter than `size`:
   * the writer emits a short frame when a source file yields fewer bytes.
   */
  datatype Frame = Frame(path: seq<Byte>, size: nat, hash: Digest, data: seq<Byte>)

  /** The fields fit their on-disk widths. */
  predicate Encodable(f: Frame)
  {
    |f.path| <= MaxPathLength && f.size < U64Limit
  }

  /** The frame carries all the data its header declares. */
  predicate Complete(f: Frame)
  {
    |f.data| == f.size
  }

  function EncodeHeader(manifest: seq<Byte>): (r: seq<Byte>)
    requires |manifest| < U64Limit
    ensures |r| == HeaderSize + |manifest|
    ensures r[..4] == Magic
    ensures FromLE(r[4..8]) == FormatVersion
    ensures FromLE(r[8..16]) == |manifest|
    ensures r[16..] == manifest
  {
    Pow256Values();
    FromLEToLE(FormatVersion, 4);
    FromLEToLE(|manifest|, 8);
    var r := Magic + ToLE(FormatVersion, 4) + ToLE(|manifest|, 8) + manifest;
    assert r[4..8] == ToLE(FormatVersion, 4);
    assert r[8..16] == ToLE(|manifest|, 8);
    r
  }

  function EncodeFrame(f: Frame): (r: seq<Byte>)
    requires Encodable(f)
    ensures |r| == FrameOverhead + |f.path| + |f.data|
    ensures FromLE(r[..2]) == |f.path|
    ensures r[2..2 + |f.path|] == f.path
    ensures FromLE(r[2 + |f.path|..10 + |f.path|]) == f.size
    ensures r[10 + |f.path|..42 + |f.path|] == f.hash
    ensures r[42 + |f.path|..] == f.data
  {
    Pow256Values();
    FromLEToLE(|f.path|, 2);
    FromLEToLE(f.size, 8);
    var n := |f.path|;
    var r := ToLE(n, 2) + f.path + ToLE(f.size, 8) + f.hash + f.data;
    assert r[..2] == ToLE(n, 2);
    assert r[2..2 + n] == f.path by {
      forall i | 0 <= i < n ensures r[2..2 + n][i] == f.path[i] { assert r[2 + i] == f.path[i]; }
    }
    assert r[2 + n..10 + n] == ToLE(f.size, 8) by {
      forall i | 0 <= i < 8 ensures r[2 + n..10 + n][i] == ToLE(f.size, 8)[i] { assert r[2 + n + i] == ToLE(f.size, 8)[i]; }
    }
    assert r[10 + n..42 + n] == f.hash by {
      forall i | 0 <= i < 32 ensures r[10 + n..42 + n][i] == f.hash[i] { assert r[10 + n + i] == f.hash[i]; }
    }
    assert r[42 + n..] == f.data by {
      forall i | 0 <= i < |f.data| ensures r[42 + n..][i] == f.data[i] { assert r[42 + n + i] == f.data[i]; }
    }
    r
  }

  function EncodeFrames(fs: seq<Frame>): (r: seq<Byte>)
    requires forall i :: 0 <= i < |fs| ==> Encodable(fs[i])
    ensures |r| >= FrameOverhead * |fs|
    ensures |fs| > 0 ==> EncodeFrame(fs[0]) <= r
  {
    if |fs| == 0 then [] else EncodeFrame(fs[0]) + EncodeFrames(fs[1..])
  }

  /** `read_exact` of `n` bytes at `pos`; running out is `UnexpectedEof`. */
  function ReadExact(s: seq<Byte>, pos: nat, n: nat): (r: Result<seq<Byte>, IoErrorKind>)
    ensures r.Ok? <==> pos + n <= |s|
    ensures r.Ok? ==> |r.value| == n && r.value == s[pos..pos + n]
    ensures r.Err? ==> r.error == UnexpectedEof
  {
    if pos + n <= |s| then Ok(s[pos..pos + n]) else Err(UnexpectedEof)
  }

  /** What the header and manifest parse leaves: the manifest and the offset of the first frame. */
  datatype Header = Header(manifest: Manifest, next: nat)

  /** The manifest length the header declares; meaningful once 16 bytes are present. */
  function DeclaredManifestLength(s: seq<Byte>): nat
    requires |s| >= HeaderSize
  {
    FromLE(s[8..16])
  }

  /**
   * The header and manifest steps every reader performs, in order: magic,
   * version, manifest length, manifest bytes, manifest parse. `parse` stands
   * for the JSON deserializer of the reader at hand.
   */
  function ReadHeader(s: seq<Byte>, parse: seq<Byte> -> Option<Manifest>): (r: Result<Header, IoErrorKind>)
    ensures r.Ok? ==> HeaderSize <= r.value.next <= |s|
    ensures r.Err? ==> r.error == UnexpectedEof || r.error == InvalidData
  {
    var magic :- ReadExact(s, 0, 4);
    if magic != Magic then Err(InvalidData)
    else
      var version :- ReadExact(s, 4, 4);
      if FromLE(version) != FormatVersion then Err(InvalidData)
      else
        var lenBytes :- ReadExact(s, 8, 8);
        var len := FromLE(lenBytes);
        var manifestBytes :- ReadExact(s, HeaderSize, len);
        match parse(manifestBytes)
        case None => Err(InvalidData)
        case Some(m) => Ok(Header(m, HeaderSize + len))
  }

  /**
   * The header parse succeeds exactly on a `BKUP` magic, version 1 and a
   * complete manifest that parses; the first frame follows the manifest.
   * A wrong magic or version is `InvalidData`; input that ends early is
   * `UnexpectedEof`.
   */
  lemma ReadHeaderSpec(s: seq<Byte>, parse: seq<Byte> -> Option<Manifest>)
    ensures var r := ReadHeader(s, parse);
      r.Ok? <==>
      && |s| >= HeaderSize
      && s[..4] == Magic
      && FromLE(s[4..8]) == FormatVersion
      && HeaderSize + DeclaredManifestLength(s) <= |s|
      && parse(s[HeaderSize..HeaderSize + DeclaredManifestLength(s)]).Some?
    ensures var r := ReadHeader(s, parse);
      r.Ok? ==>
      && r.value.next == HeaderSize + DeclaredManifestLength(s)
      && parse(s[HeaderSize..r.value.next]) == Some(r.value.manifest)
    ensures |s| >= 4 && s[..4] != Magic ==> ReadHeader(s, parse) == Err(InvalidData)
    ensures |s| >= 8 && s[..4] == Magic && FromLE(s[4..8]) != FormatVersion ==> ReadHeader(s, parse) == Err(InvalidData)
    ensures ReadHeader(s, parse) == Err(UnexpectedEof) <==>
      || |s| < 4
      || (s[..4] == Magic && |s| < 8)
      || (s[..4] == Magic && FromLE(s[4..8]) == FormatVersion &&
          (|s| < HeaderSize || HeaderSize + DeclaredManifestLength(s) > |s|))
  {
  }

  /**
   * The header parse looks at nothing past the manifest: any input that
   * agrees with `s` up to the first frame parses the same way.
   */
  lemma ReadHeaderPrefix(s: seq<Byte>, t: seq<Byte>, parse: seq<Byte> -> Option<Manifest>)
    requires ReadHeader(s, parse).Ok?
    requires |t| >= ReadHeader(s, parse).value.next
    requires t[..ReadHeader(s, parse).value.next] == s[..ReadHeader(s, parse).value.next]
    ensures ReadHeader(t, parse) == ReadHeader(s, parse)
  {
    var n := ReadHeader(s, parse).value.next;
    ReadHeaderSpec(s, parse);
    PrefixSlice(s, t, n, 0, 4);
    PrefixSlice(s, t, n, 4, 8);
    PrefixSlice(s, t, n, 8, 16);
    PrefixSlice(s, t, n, HeaderSize, n);
    ReadHeaderSpec(t, parse);
  }

  /** Two inputs that agree on their first `n` bytes agree on every slice inside them. */
  lemma PrefixSlice(s: seq<Byte>, t: seq<Byte>, n: nat, a: nat, b: nat)
    requires a <= b <= n <= |s| && n <= |t| && t[..n] == s[..n]
    ensures t[a..b] == s[a..b]
  {
    assert t[a..b] == t[..n][a..b];
    assert s[a..b] == s[..n][a..b];
  }

  /** The fixed part of a frame: what precedes its data. */
  datatype FrameHeader = FrameHeader(path: seq<Byte>, size: nat, hash: Digest)

  /**
   * At a frame boundary, fewer than two bytes left (or a position past the
   * end, after a seek) is a clean end of the archive.
   */
  predicate AtEnd(s: seq<Byte>, pos: nat)
  {
    pos + 2 > |s|
  }

  /** Bytes left after `pos`: the measure every frame loop decreases. */
  function Position(s: seq<Byte>, pos: nat): nat
  {
    if pos <= |s| then |s| - pos else 0
  }

  /**
   * Reads the path length, the path (which must be UTF-8), the size and the
   * digest of the frame at `pos`; returns them and the offset of the data.
   */
  function ReadFrameHeader(s: seq<Byte>, pos: nat): (r: Result<(FrameHeader, nat), IoErrorKind>)
    requires !AtEnd(s, pos)
    ensures r.Ok? ==> r.value.1 == pos + FrameOverhead + |r.value.0.path| <= |s| && r.value.0.size < U64Limit
    ensures r.Ok? ==> Utf8.Valid(r.value.0.path) && r.value.0.path == s[pos + 2..pos + 2 + |r.value.0.path|]
    ensures r.Err? ==> r.error == UnexpectedEof || r.error == InvalidData
  {
    var n := FromLE(s[pos..pos + 2]);
    if pos + 2 + n > |s| then Err(UnexpectedEof)
    else if !Utf8.Valid(s[pos + 2..pos + 2 + n]) then Err(InvalidData)
    else if pos + FrameOverhead + n > |s| then Err(UnexpectedEof)
    else
      Pow256Values();
      var size := FromLE(s[pos + 2 + n..pos + 10 + n]);
      Ok((FrameHeader(s[pos + 2..pos + 2 + n], size, s[pos + 10 + n..pos + FrameOverhead + n]), pos + FrameOverhead + n))
  }

  /**
   * A frame header is the u16 length, that many path bytes (well-formed
   * UTF-8, else `InvalidData`), the u64 size and the 32-byte digest; running
   * out of bytes anywhere in it is `UnexpectedEof`.
   */
  lemma ReadFrameHeaderSpec(s: seq<Byte>, pos: nat)
    requires !AtEnd(s, pos)
    ensures var r := ReadFrameHeader(s, pos);
      r.Ok? ==>
      var (h, next) := r.value;
      && |h.path| == FromLE(s[pos..pos + 2])
      && h.path == s[pos + 2..pos + 2 + |h.path|]
      && Utf8.Valid(h.path)
      && h.size == FromLE(s[pos + 2 + |h.path|..pos + 10 + |h.path|])
      && h.hash == s[pos + 10 + |h.path|..next]
    ensures ReadFrameHeader(s, pos) == Err(InvalidData) <==>
      var n := FromLE(s[pos..pos + 2]);
      pos + 2 + n <= |s| && !Utf8.Valid(s[pos + 2..pos + 2 + n])
    ensures ReadFrameHeader(s, pos).Ok? <==>
      var n := FromLE(s[pos..pos + 2]);
      pos + FrameOverhead + n <= |s| && Utf8.Valid(s[pos + 2..pos + 2 + n])
  {
  }

  /** Parsing a well-formed header gives back what was encoded. */
  lemma ReadEncodedHeader(manifest: seq<Byte>, rest: seq<Byte>, parse: seq<Byte> -> Option<Manifest>)
    requires |manifest| < U64Limit
    requires parse(manifest).Some?
    ensures ReadHeader(EncodeHeader(manifest) + rest, parse)
         == Ok(Header(parse(manifest).value, HeaderSize + |manifest|))
  {
    var e := EncodeHeader(manifest);
    var s := e + rest;
    ReadHeaderSpec(s, parse);
    assert s[..4] == e[..4];
    assert s[4..8] == e[4..8];
    assert s[8..16] == e[8..16];
    assert s[HeaderSize..HeaderSize + |manifest|] == manifest;
  }

  /** A frame header whose fields lie at `pos` as the format lays them out reads back as those fields. */
  lemma ReadFrameHeaderOf(s: seq<Byte>, pos: nat, path: seq<Byte>, size: nat, hash: Digest)
    requires Utf8.Valid(path)
    requires pos + FrameOverhead + |path| <= |s|
    requires FromLE(s[pos..pos + 2]) == |path|
    requires s[pos + 2..pos + 2 + |path|] == path
    requires FromLE(s[pos + 2 + |path|..pos + 10 + |path|]) == size
    requires s[pos + 10 + |path|..pos + FrameOverhead + |path|] == hash
    ensures !AtEnd(s, pos)
    ensures ReadFrameHeader(s, pos) == Ok((FrameHeader(path, size, hash), pos + FrameOverhead + |path|))
  {
    var r := ReadFrameHeader(s, pos);
    assert r.Ok?;
    var (h, next) := r.value;
    assert h.path == path;
    assert h.size == size;
    assert h.hash == hash;
  }

  /** Where the fields of a frame laid down at `pos` lie. */
  lemma EncodedFrameFields(s: seq<Byte>, pos: nat, f: Frame)
    requires Encodable(f)
    requires pos + |EncodeFrame(f)| <= |s|
    requires s[pos..pos + |EncodeFrame(f)|] == EncodeFrame(f)
    ensures pos + FrameOverhead + |f.path| + |f.data| <= |s|
    ensures FromLE(s[pos..pos + 2]) == |f.path|
    ensures s[pos + 2..pos + 2 + |f.path|] == f.path
    ensures FromLE(s[pos + 2 + |f.path|..pos + 10 + |f.path|]) == f.size
    ensures s[pos + 10 + |f.path|..pos + FrameOverhead + |f.path|] == f.hash
    ensures s[pos + FrameOverhead + |f.path|..pos + |EncodeFrame(f)|] == f.data
  {
    var e := EncodeFrame(f);
    var n := |f.path|;
    var len := |e|;
    SliceOfSlice(s, pos, len, 0, 2);
    SliceOfSlice(s, pos, len, 2, 2 + n);
    SliceOfSlice(s, pos, len, 2 + n, 10 + n);
    SliceOfSlice(s, pos, len, 10 + n, 42 + n);
    SliceOfSlice(s, pos, len, 42 + n, len);
  }

  /** A frame laid down at `pos` reads back as the header it was written with. */
  lemma ReadEncodedFrame(s: seq<Byte>, pos: nat, f: Frame)
    requires Encodable(f) && Utf8.Valid(f.path)
    requires pos + |EncodeFrame(f)| <= |s|
    requires s[pos..pos + |EncodeFrame(f)|] == EncodeFrame(f)
    ensures !AtEnd(s, pos)
    ensures ReadFrameHeader(s, pos) == Ok((FrameHeader(f.path, f.size, f.hash), pos + FrameOverhead + |f.path|))
    ensures s[pos + FrameOverhead + |f.path|..pos + |EncodeFrame(f)|] == f.data
  {
    EncodedFrameFields(s, pos, f);
    ReadFrameHeaderOf(s, pos, f.path, f.size, f.hash);
  }

  lemma SliceOfSlice(s: seq<Byte>, pos: nat, len: nat, a: nat, b: nat)
    requires pos + len <= |s| && a <= b <= len
    ensures s[pos + a..pos + b] == s[pos..pos + len][a..b]
  {
    var x := s[pos + a..pos + b];
    var y := s[pos..pos + len][a..b];
    assert |x| == |y|;
    forall i | 0 <= i < |x|
      ensures x[i] == y[i]
    {
    }
  }

  /** A suffix that is a concatenation splits at the first part's length. */
  lemma SuffixSplit(s: seq<Byte>, pos: nat, x: seq<Byte>, y: seq<Byte>)
    requires pos <= |s| && s[pos..] == x + y
    ensures pos + |x| <= |s|
    ensures s[pos..pos + |x|] == x && s[pos + |x|..] == y
  {
    assert |s[pos..]| == |x| + |y|;
    forall i | 0 <= i < |x| ensures s[pos..pos + |x|][i] == x[i] {
      assert s[pos + i] == s[pos..][i];
    }
    forall i | 0 <= i < |y| ensures s[pos + |x|..][i] == y[i] {
      assert s[pos + |x| + i] == s[pos..][|x| + i];
    }
  }

  /** Where frame `i` of an encoded sequence starts, relative to the sequence. */
  lemma EncodeFramesSplit(fs: seq<Frame>)
    requires |fs| > 0
    requires forall i :: 0 <= i < |fs| ==> Encodable(fs[i])
    ensures EncodeFrames(fs) == EncodeFrame(fs[0]) + EncodeFrames(fs[1..])
  {
  }

  /** Slices at the same offsets from two positions whose suffixes agree are equal. */
  lemma SliceShift(s: seq<Byte>, p: nat, t: seq<Byte>, q: nat, a: nat, b: nat)
    requires p <= |s| && q <= |t| && s[p..] == t[q..]
    requires a <= b <= |s| - p
    ensures s[p + a..p + b] == t[q + a..q + b]
  {
    assert |s| - p == |t| - q by { assert |s[p..]| == |t[q..]|; }
    var x := s[p + a..p + b];
    var y := t[q + a..q + b];
    forall i | 0 <= i < |x|
      ensures x[i] == y[i]
    {
      assert s[p + a + i] == s[p..][a + i];
      assert t[q + a + i] == t[q..][a + i];
    }
  }

  /** A read frame header as seen from `p` bytes further into the archive. */
  function Relocate(r: Result<(FrameHeader, nat), IoErrorKind>, p: nat): Result<(FrameHeader, nat), IoErrorKind>
  {
    match r
    case Ok((h, next)) => Ok((h, next + p))
    case Err(e) => Err(e)
  }

  /** Reading a frame header at `p` reads the suffix from `p` on and nothing before it. */
  lemma ReadFrameHeaderLocal(s: seq<Byte>, p: nat)
    requires !AtEnd(s, p)
    ensures !AtEnd(s[p..], 0)
    ensures ReadFrameHeader(s, p) == Relocate(ReadFrameHeader(s[p..], 0), p)
  {
    var t := s[p..];
    assert t[0..] == s[p..];
    SliceShift(s, p, t, 0, 0, 2);
    var n := FromLE(s[p..p + 2]);
    if p + 2 + n <= |s| {
      SliceShift(s, p, t, 0, 2, 2 + n);
      if p + FrameOverhead + n <= |s| {
        SliceShift(s, p, t, 0, 2 + n, 10 + n);
        SliceShift(s, p, t, 0, 10 + n, FrameOverhead + n);
      }
    }
  }

  /** A frame header is read from the bytes at and after `pos` only. */
  lemma ReadFrameHeaderShift(s: seq<Byte>, p: nat, t: seq<Byte>, q: nat)
    requires p <= |s| && q <= |t| && s[p..] == t[q..]
    requires !AtEnd(s, p)
    ensures !AtEnd(t, q)
    ensures var r1 := ReadFrameHeader(s, p);
      var r2 := ReadFrameHeader(t, q);
      && (r1.Err? <==> r2.Err?)
      && (r1.Err? ==> r1.error == r2.error)
      && (r1.Ok? ==> r1.value.0 == r2.value.0 && r1.value.1 - p == r2.value.1 - q)
  {
    assert |s| - p == |t| - q by { assert |s[p..]| == |t[q..]|; }
    ReadFrameHeaderLocal(s, p);
    ReadFrameHeaderLocal(t, q);
  }
}
