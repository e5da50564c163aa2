/**
 * `create_backup_file`: writes the header and manifest, then one frame per
 * hashed file, re-reading each file's data from disk. The disk and the output
 * file are oracles: `open` says what reopening a source path yields, and the
 * `Sink` says whether the output can be created and how many bytes it takes.
 */
module BackupFile {
  import opened Bytes
  import opened Wrappers
  import opened RustPath
  import opened Container
  import opened Entries
  import Utf8

  /** Size of the writer's copy buffer. */
  const CopyBufferSize: nat := 8192

  /** What reopening a source file yields. */
  datatype SourceFile =
    | Unopenable
      /** Reads deliver `content`, then end of file. */
    | Readable(content: seq<Byte>)
      /** Reads deliver `delivered`, then the next read fails. */
    | FailsAfter(delivered: seq<Byte>)

  /** The output file: whether `File::create` succeeds, and how many bytes the device accepts. */
  datatype Sink = Sink(createOk: bool, capacity: Option<nat>)

  /** The bytes a source offers before end of file or a read error. */
  function Available(src: SourceFile): seq<Byte>
  {
    match src
    case Unopenable => []
    case Readable(c) => c
    case FailsAfter(d) => d
  }

  /**
   * The `while remaining > 0` loop: reads of at most one buffer each, a read
   * of 0 bytes ends the frame early, a read error aborts.
   */
  function Drain(remaining: nat, avail: seq<Byte>, failsAtEnd: bool): (r: Result<seq<Byte>, IoErrorKind>)
    ensures r.Ok? <==> !(failsAtEnd && |avail| < remaining)
    ensures r.Ok? ==> r.value == avail[..Min(remaining, |avail|)]
    ensures r.Err? ==> r.error == Os
    decreases remaining
  {
    if remaining == 0 then Ok([])
    else if |avail| == 0 then (if failsAtEnd then Err(Os) else Ok([]))
    else
      var n := Min(Min(remaining, CopyBufferSize), |avail|);
      var rest :- Drain(remaining - n, avail[n..], failsAtEnd);
      Ok(avail[..n] + rest)
  }

  /** The data written after a frame header; no data at all when the reopen fails. */
  function FrameData(size: nat, src: SourceFile): (r: Result<seq<Byte>, IoErrorKind>)
    ensures r.Ok? ==> |r.value| <= size
    ensures r.Ok? ==> r.value == Available(src)[..Min(size, |Available(src)|)]
    ensures r.Err? <==> src.FailsAfter? && |src.delivered| < size
  {
    match src
    case Unopenable => Ok([])
    case Readable(c) => Drain(size, c, false)
    case FailsAfter(d) => Drain(size, d, true)
  }

  /** The path a file's frame carries fits the u16 length field. */
  predicate Fits(root: RPath, h: HashedFile)
  {
    |StoredPath(h.entry.path, root)| <= MaxPathLength
  }

  /** The entries that get a frame, in input order. */
  function Kept(root: RPath, files: seq<HashedFile>): (r: seq<HashedFile>)
    ensures |r| <= |files|
    ensures forall i :: 0 <= i < |r| ==> Fits(root, r[i]) && r[i] in files
  {
    if |files| == 0 then []
    else if Fits(root, files[0]) then [files[0]] + Kept(root, files[1..])
    else Kept(root, files[1..])
  }

  /** Every entry gets a frame exactly when every stored path fits. */
  lemma {:induction false} KeptAll(root: RPath, files: seq<HashedFile>)
    ensures |Kept(root, files)| == |files| <==> forall i :: 0 <= i < |files| ==> Fits(root, files[i])
    decreases |files|
  {
    if |files| > 0 {
      KeptAll(root, files[1..]);
      assert forall i :: 1 <= i < |files| ==> files[i] == files[1..][i - 1];
    }
  }

  /** `f` is the frame written for `h`. */
  predicate FrameOf(root: RPath, h: HashedFile, open: RPath -> SourceFile, f: Frame)
  {
    var avail := Available(open(h.entry.path));
    && f.path == StoredPath(h.entry.path, root)
    && f.size == h.entry.size
    && f.hash == h.hash
    && f.data == avail[..Min(h.entry.size, |avail|)]
  }

  /** Whether re-reading some kept entry runs into a read error. */
  ghost predicate ReadFails(root: RPath, files: seq<HashedFile>, open: RPath -> SourceFile)
  {
    exists i :: 0 <= i < |Kept(root, files)| && FrameData(Kept(root, files)[i].entry.size, open(Kept(root, files)[i].entry.path)).Err?
  }

  /** The `for h in files` loop, as the list of frames it writes. */
  function WriteFrames(root: RPath, files: seq<HashedFile>, open: RPath -> SourceFile): (r: Result<seq<Frame>, IoErrorKind>)
    ensures r.Err? ==> r.error == Os
  {
    if |files| == 0 then Ok([])
    else
      var h := files[0];
      var path := StoredPath(h.entry.path, root);
      if |path| > MaxPathLength then WriteFrames(root, files[1..], open)
      else
        var data :- FrameData(h.entry.size, open(h.entry.path));
        var rest :- WriteFrames(root, files[1..], open);
        Ok([Frame(path, h.entry.size, h.hash, data)] + rest)
  }

  /** The loop fails exactly when re-reading a kept entry fails. */
  lemma {:induction false} WriteFramesFails(root: RPath, files: seq<HashedFile>, open: RPath -> SourceFile)
    ensures WriteFrames(root, files, open).Ok? <==> !ReadFails(root, files, open)
    decreases |files|
  {
    if |files| > 0 {
      var h := files[0];
      WriteFramesFails(root, files[1..], open);
      var kept := Kept(root, files);
      if Fits(root, h) {
        assert kept == [h] + Kept(root, files[1..]);
        if FrameData(h.entry.size, open(h.entry.path)).Err? {
          assert ReadFails(root, files, open) by { assert kept[0] == h; }
        } else if WriteFrames(root, files[1..], open).Err? {
          ReadFailsExtends(root, files, open);
        } else {
          ReadFailsSplit(root, files, open);
        }
      } else {
        assert kept == Kept(root, files[1..]);
      }
    }
  }

  /** `frames` is the list written for `kept`: one frame per entry, in order. */
  predicate FramesOf(root: RPath, kept: seq<HashedFile>, open: RPath -> SourceFile, frames: seq<Frame>)
  {
    && |frames| == |kept|
    && forall i :: 0 <= i < |frames| ==>
      FrameOf(root, kept[i], open, frames[i]) && Encodable(frames[i]) && |frames[i].data| <= frames[i].size
  }

  /**
   * A successful loop writes one frame per kept entry, in order, each with
   * the entry's stored path, size and digest and at most `size` data bytes.
   */
  lemma {:induction false} WriteFramesSpec(root: RPath, files: seq<HashedFile>, open: RPath -> SourceFile)
    requires WriteFrames(root, files, open).Ok?
    ensures FramesOf(root, Kept(root, files), open, WriteFrames(root, files, open).value)
    decreases |files|
  {
    if |files| > 0 {
      var h := files[0];
      WriteFramesSpec(root, files[1..], open);
      if Fits(root, h) {
        WriteFramesCons(root, files, open);
      } else {
        assert Kept(root, files) == Kept(root, files[1..]);
      }
    }
  }

  lemma WriteFramesCons(root: RPath, files: seq<HashedFile>, open: RPath -> SourceFile)
    requires |files| > 0 && Fits(root, files[0])
    requires WriteFrames(root, files, open).Ok?
    requires WriteFrames(root, files[1..], open).Ok?
    requires FramesOf(root, Kept(root, files[1..]), open, WriteFrames(root, files[1..], open).value)
    ensures FramesOf(root, Kept(root, files), open, WriteFrames(root, files, open).value)
  {
    var h := files[0];
    var kept := Kept(root, files);
    var tail := Kept(root, files[1..]);
    assert kept == [h] + tail;
    var data := FrameData(h.entry.size, open(h.entry.path)).value;
    var rest := WriteFrames(root, files[1..], open).value;
    var f := Frame(StoredPath(h.entry.path, root), h.entry.size, h.hash, data);
    assert WriteFrames(root, files, open).value == [f] + rest;
    assert FrameOf(root, h, open, f) && Encodable(f) && |f.data| <= f.size;
    FramesOfCons(root, h, tail, open, f, rest);
  }

  lemma FramesOfCons(root: RPath, h: HashedFile, tail: seq<HashedFile>, open: RPath -> SourceFile, f: Frame, rest: seq<Frame>)
    requires FrameOf(root, h, open, f) && Encodable(f) && |f.data| <= f.size
    requires FramesOf(root, tail, open, rest)
    ensures FramesOf(root, [h] + tail, open, [f] + rest)
  {
    var kept := [h] + tail;
    var r := [f] + rest;
    forall i | 0 <= i < |r|
      ensures FrameOf(root, kept[i], open, r[i]) && Encodable(r[i]) && |r[i].data| <= r[i].size
    {
      if i > 0 {
        assert r[i] == rest[i - 1];
        assert kept[i] == tail[i - 1];
      }
    }
  }

  lemma ReadFailsExtends(root: RPath, files: seq<HashedFile>, open: RPath -> SourceFile)
    requires |files| > 0 && Fits(root, files[0])
    requires ReadFails(root, files[1..], open)
    ensures ReadFails(root, files, open)
  {
    var kept := Kept(root, files);
    var i :| 0 <= i < |Kept(root, files[1..])| && FrameData(Kept(root, files[1..])[i].entry.size, open(Kept(root, files[1..])[i].entry.path)).Err?;
    assert kept[i + 1] == Kept(root, files[1..])[i];
  }

  lemma ReadFailsSplit(root: RPath, files: seq<HashedFile>, open: RPath -> SourceFile)
    requires |files| > 0 && Fits(root, files[0])
    requires FrameData(files[0].entry.size, open(files[0].entry.path)).Ok?
    requires !ReadFails(root, files[1..], open)
    ensures !ReadFails(root, files, open)
  {
    var kept := Kept(root, files);
    forall i | 0 <= i < |kept|
      ensures FrameData(kept[i].entry.size, open(kept[i].entry.path)).Ok?
    {
      if i > 0 {
        assert kept[i] == Kept(root, files[1..])[i - 1];
      }
    }
  }

  /**
   * `create_backup_file`: `Ok` with the archive's bytes, or the error that
   * aborted the run. `manifest` is the manifest JSON's UTF-8 bytes.
   */
  function CreateBackupFile(sink: Sink, root: RPath, files: seq<HashedFile>, manifest: seq<Byte>, open: RPath -> SourceFile)
    : (r: Result<seq<Byte>, IoErrorKind>)
    requires |manifest| < U64Limit
    ensures r.Ok? ==>
      && |r.value| >= HeaderSize + |manifest|
      && r.value[..4] == Magic
      && FromLE(r.value[4..8]) == FormatVersion
      && FromLE(r.value[8..16]) == |manifest|
      && r.value[HeaderSize..HeaderSize + |manifest|] == manifest
    ensures !sink.createOk ==> r == Err(Os)
    ensures sink.createOk && sink.capacity.None? ==> (r.Ok? <==> !ReadFails(root, files, open))
    ensures r.Ok? && sink.capacity.Some? ==> |r.value| <= sink.capacity.value
    ensures r.Err? ==> r.error == Os
  {
    WriteFramesFails(root, files, open);
    if !sink.createOk then Err(Os)
    else
      var frames :- WriteFrames(root, files, open);
      WriteFramesSpec(root, files, open);
      var header := EncodeHeader(manifest);
      var out := header + EncodeFrames(frames);
      assert out[..HeaderSize + |manifest|] == header;
      assert out[..4] == header[..4];
      assert out[4..8] == header[4..8];
      assert out[8..16] == header[8..16];
      assert out[HeaderSize..HeaderSize + |manifest|] == header[HeaderSize..];
      if sink.capacity.Some? && |out| > sink.capacity.value then Err(Os)
      else Ok(out)
  }

  /**
   * A successful run writes exactly the header, the manifest and the frames
   * of the kept entries, back to back.
   */
  lemma CreateBackupFileLayout(sink: Sink, root: RPath, files: seq<HashedFile>, manifest: seq<Byte>, open: RPath -> SourceFile)
    requires |manifest| < U64Limit
    requires CreateBackupFile(sink, root, files, manifest, open).Ok?
    ensures WriteFrames(root, files, open).Ok?
    ensures FramesOf(root, Kept(root, files), open, WriteFrames(root, files, open).value)
    ensures CreateBackupFile(sink, root, files, manifest, open).value
         == EncodeHeader(manifest) + EncodeFrames(WriteFrames(root, files, open).value)
  {
    WriteFramesSpec(root, files, open);
  }

  /**
   * On a sink that holds at most `capacity` bytes, the run succeeds exactly
   * when every re-read succeeds and the archive an unbounded sink would get
   * fits, and then writes that archive; one byte too many is a write error.
   */
  lemma CreateBackupFileFits(sink: Sink, root: RPath, files: seq<HashedFile>, manifest: seq<Byte>, open: RPath -> SourceFile)
    requires |manifest| < U64Limit
    requires sink.createOk && sink.capacity.Some?
    ensures var r := CreateBackupFile(sink, root, files, manifest, open);
      var full := CreateBackupFile(Sink(true, None), root, files, manifest, open);
      && (full.Ok? <==> !ReadFails(root, files, open))
      && (r.Ok? <==> full.Ok? && |full.value| <= sink.capacity.value)
      && (r.Ok? ==> r == full)
  {
  }

  /** A too-long path contributes nothing: the run is as if the entry were absent. */
  lemma {:induction false} LongPathWritesNothing(root: RPath, before: seq<HashedFile>, h: HashedFile, after: seq<HashedFile>, open: RPath -> SourceFile)
    requires !Fits(root, h)
    ensures WriteFrames(root, before + [h] + after, open) == WriteFrames(root, before + after, open)
    decreases |before|
  {
    if |before| == 0 {
      LongPathFirst(root, h, after, open);
    } else {
      LongPathWritesNothing(root, before[1..], h, after, open);
      LongPathLater(root, before, h, after, open);
    }
  }

  lemma LongPathFirst(root: RPath, h: HashedFile, after: seq<HashedFile>, open: RPath -> SourceFile)
    requires !Fits(root, h)
    ensures WriteFrames(root, [] + [h] + after, open) == WriteFrames(root, [] + after, open)
  {
    var xs := [] + [h] + after;
    assert xs[0] == h && xs[1..] == after && [] + after == after;
    SkipLongHead(root, xs, open);
  }

  lemma LongPathLater(root: RPath, before: seq<HashedFile>, h: HashedFile, after: seq<HashedFile>, open: RPath -> SourceFile)
    requires |before| > 0
    requires WriteFrames(root, before[1..] + [h] + after, open) == WriteFrames(root, before[1..] + after, open)
    ensures WriteFrames(root, before + [h] + after, open) == WriteFrames(root, before + after, open)
  {
    TailOfAppend(before, [h]);
    TailOfAppend(before + [h], after);
    TailOfAppend(before, after);
    SameTailSameFrames(root, before + [h] + after, before + after, open);
  }

  lemma TailOfAppend(a: seq<HashedFile>, b: seq<HashedFile>)
    requires |a| > 0
    ensures (a + b)[0] == a[0] && (a + b)[1..] == a[1..] + b
  {
  }

  lemma SkipLongHead(root: RPath, files: seq<HashedFile>, open: RPath -> SourceFile)
    requires |files| > 0 && !Fits(root, files[0])
    ensures WriteFrames(root, files, open) == WriteFrames(root, files[1..], open)
  {
  }

  lemma SameTailSameFrames(root: RPath, xs: seq<HashedFile>, ys: seq<HashedFile>, open: RPath -> SourceFile)
    requires |xs| > 0 && |ys| > 0 && xs[0] == ys[0]
    requires WriteFrames(root, xs[1..], open) == WriteFrames(root, ys[1..], open)
    ensures WriteFrames(root, xs, open) == WriteFrames(root, ys, open)
  {
  }
}
