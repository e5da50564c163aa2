/**
 * `verify_backup_file`: parses the header and manifest, then walks every
 * frame, hashing its data and counting matches; a record count that differs
 * from the manifest's file count is only a warning.
 */
module VerifyArchive {
  import opened Bytes
  import opened Wrappers
  import opened Container

  /** The loop's counters. */
  datatype Tally = Tally(checked: nat, ok: nat, mismatched: nat)

  /** What a successful run reports: the frames it read, its counters, and the manifest-count warning. */
  datatype VerifyReport = VerifyReport(frames: seq<Frame>, tally: Tally, manifestCount: nat, countWarning: bool)

  /** The frames whose data hashes to the digest they carry. */
  function Intact(fs: seq<Frame>, hash: seq<Byte> -> Digest): (r: seq<Frame>)
    ensures |r| <= |fs|
    ensures forall i :: 0 <= i < |r| ==> r[i] in fs && hash(r[i].data) == r[i].hash
  {
    if |fs| == 0 then []
    else if hash(fs[0].data) == fs[0].hash then [fs[0]] + Intact(fs[1..], hash)
    else Intact(fs[1..], hash)
  }

  /**
   * The record loop from the frame boundary `pos`: every frame up to a clean
   * end, or the first error. Each frame consumes its header and exactly
   * `size` data bytes.
   */
  function ReadFrames(s: seq<Byte>, pos: nat): (r: Result<seq<Frame>, IoErrorKind>)
    ensures r.Err? ==> r.error == UnexpectedEof || r.error == InvalidData
    decreases Position(s, pos)
  {
    if AtEnd(s, pos) then Ok([])
    else
      var read := ReadFrameHeader(s, pos);
      if read.Err? then Err(read.error)
      else
        var (h, next) := read.value;
        if next + h.size > |s| then Err(UnexpectedEof)
        else
          var rest := ReadFrames(s, next + h.size);
          if rest.Err? then rest
          else Ok([Frame(h.path, h.size, h.hash, s[next..next + h.size])] + rest.value)
  }

  /** Every frame read back carries all its declared data and a UTF-8 path. */
  lemma {:induction false} ReadFramesWellFormed(s: seq<Byte>, pos: nat)
    requires ReadFrames(s, pos).Ok?
    ensures forall i :: 0 <= i < |ReadFrames(s, pos).value| ==>
      Complete(ReadFrames(s, pos).value[i]) && Utf8.Valid(ReadFrames(s, pos).value[i].path)
    decreases Position(s, pos)
  {
    if !AtEnd(s, pos) {
      var (h, next) := ReadFrameHeader(s, pos).value;
      ReadFramesNext(s, pos, h, next);
      var rest := ReadFrames(s, next + h.size).value;
      ReadFramesWellFormed(s, next + h.size);
      var f := Frame(h.path, h.size, h.hash, s[next..next + h.size]);
      assert Complete(f) && Utf8.Valid(f.path);
      assert ReadFrames(s, pos).value == [f] + rest;
    }
  }

  /** The counters after hashing `fs` in order: one `checked` per frame, then `ok` or `mismatched`. */
  function Count(fs: seq<Frame>, hash: seq<Byte> -> Digest): (t: Tally)
    ensures t.checked == |fs|
    ensures t.checked == t.ok + t.mismatched
  {
    if |fs| == 0 then Tally(0, 0, 0)
    else
      var t := Count(fs[1..], hash);
      if hash(fs[0].data) == fs[0].hash then Tally(t.checked + 1, t.ok + 1, t.mismatched)
      else Tally(t.checked + 1, t.ok, t.mismatched + 1)
  }

  /** `ok` counts exactly the intact frames. */
  lemma {:induction false} CountOk(fs: seq<Frame>, hash: seq<Byte> -> Digest)
    ensures Count(fs, hash).ok == |Intact(fs, hash)|
    ensures Count(fs, hash).mismatched == |fs| - |Intact(fs, hash)|
  {
    if |fs| > 0 {
      CountOk(fs[1..], hash);
    }
  }

  /**
   * `verify_backup_file` on the archive bytes `s`. `parse` is this reader's own manifest
   * deserializer and `hash` SHA-256.
   */
  function VerifyBackupFile(s: seq<Byte>, parse: seq<Byte> -> Option<Manifest>, hash: seq<Byte> -> Digest)
    : (r: Result<VerifyReport, IoErrorKind>)
    ensures ReadHeader(s, parse).Err? ==> r == Err(ReadHeader(s, parse).error)
    ensures r.Ok? <==> ReadHeader(s, parse).Ok? && ReadFrames(s, ReadHeader(s, parse).value.next).Ok?
    ensures r.Ok? ==>
      && r.value.frames == ReadFrames(s, ReadHeader(s, parse).value.next).value
      && r.value.tally.checked == |r.value.frames|
      && r.value.tally.ok == |Intact(r.value.frames, hash)|
      && r.value.tally.checked == r.value.tally.ok + r.value.tally.mismatched
      && r.value.manifestCount == |ReadHeader(s, parse).value.manifest.files|
      && (r.value.countWarning <==> r.value.tally.checked != r.value.manifestCount)
    ensures r.Err? ==> r.error == UnexpectedEof || r.error == InvalidData
  {
    match ReadHeader(s, parse)
    case Err(e) => Err(e)
    case Ok(hdr) =>
      match ReadFrames(s, hdr.next)
      case Err(e) => Err(e)
      case Ok(fs) =>
        var t := Count(fs, hash);
        CountOk(fs, hash);
        var count := |hdr.manifest.files|;
        Ok(VerifyReport(fs, t, count, t.checked != count))
  }

  /** One step of the loop at a header whose data is present: that frame, then the rest or the rest's error. */
  lemma ReadFramesNext(s: seq<Byte>, pos: nat, h: FrameHeader, next: nat)
    requires !AtEnd(s, pos) && ReadFrameHeader(s, pos) == Ok((h, next))
    requires next + h.size <= |s|
    ensures var rest := ReadFrames(s, next + h.size);
      ReadFrames(s, pos) == if rest.Err? then rest else Ok([Frame(h.path, h.size, h.hash, s[next..next + h.size])] + rest.value)
  {
  }

  /** One step of the loop: the header of `f` read at `pos`, followed by its data. */
  lemma ReadFramesUnfold(s: seq<Byte>, pos: nat, f: Frame, end: nat, rest: seq<Frame>)
    requires !AtEnd(s, pos) && ReadFrameHeader(s, pos) == Ok((FrameHeader(f.path, f.size, f.hash), pos + FrameOverhead + |f.path|))
    requires end == pos + FrameOverhead + |f.path| + f.size <= |s|
    requires s[pos + FrameOverhead + |f.path|..end] == f.data
    requires ReadFrames(s, end) == Ok(rest)
    ensures ReadFrames(s, pos) == Ok([f] + rest)
  {
  }

  /** One encoded frame at `pos`, followed by frames that read back as `rest`, reads back as the frame and then `rest`. */
  lemma ReadFramesStep(s: seq<Byte>, pos: nat, f: Frame, rest: seq<Frame>, end: nat)
    requires Encodable(f) && Complete(f) && Utf8.Valid(f.path)
    requires end == pos + |EncodeFrame(f)| <= |s|
    requires s[pos..end] == EncodeFrame(f)
    requires ReadFrames(s, end) == Ok(rest)
    ensures ReadFrames(s, pos) == Ok([f] + rest)
  {
    ReadEncodedFrame(s, pos, f);
    ReadFramesUnfold(s, pos, f, end, rest);
  }

  lemma HeadTail(fs: seq<Frame>)
    requires |fs| > 0
    ensures [fs[0]] + fs[1..] == fs
  {
  }

  /** A well-formed frame sequence after `pos` is read back frame by frame. */
  lemma {:induction false} ReadEncodedFrames(s: seq<Byte>, pos: nat, fs: seq<Frame>)
    requires forall i :: 0 <= i < |fs| ==> Encodable(fs[i]) && Complete(fs[i]) && Utf8.Valid(fs[i].path)
    requires pos <= |s| && s[pos..] == EncodeFrames(fs)
    ensures ReadFrames(s, pos) == Ok(fs)
    decreases |fs|
  {
    if |fs| == 0 {
      assert |s[pos..]| == 0;
    } else {
      var f := fs[0];
      var e := EncodeFrame(f);
      var next := pos + |e|;
      EncodeFramesSplit(fs);
      SuffixSplit(s, pos, e, EncodeFrames(fs[1..]));
      ReadEncodedFrames(s, next, fs[1..]);
      ReadFramesStep(s, pos, f, fs[1..], next);
      HeadTail(fs);
    }
  }

  /** Round trip: verifying a header followed by complete frames reads exactly those frames. */
  lemma VerifyEncoded(manifest: seq<Byte>, fs: seq<Frame>, parse: seq<Byte> -> Option<Manifest>, hash: seq<Byte> -> Digest)
    requires |manifest| < U64Limit && parse(manifest).Some?
    requires forall i :: 0 <= i < |fs| ==> Encodable(fs[i]) && Complete(fs[i]) && Utf8.Valid(fs[i].path)
    ensures var r := VerifyBackupFile(EncodeHeader(manifest) + EncodeFrames(fs), parse, hash);
      && r.Ok?
      && r.value.frames == fs
      && r.value.tally.ok == |Intact(fs, hash)|
      && r.value.manifestCount == |parse(manifest).value.files|
      && (r.value.countWarning <==> |fs| != |parse(manifest).value.files|)
  {
    var s := EncodeHeader(manifest) + EncodeFrames(fs);
    ReadEncodedHeader(manifest, EncodeFrames(fs), parse);
    assert s[HeaderSize + |manifest|..] == EncodeFrames(fs);
    ReadEncodedFrames(s, HeaderSize + |manifest|, fs);
  }

  /** The loop ends cleanly, with no further frame, exactly when fewer than two bytes remain. */
  lemma CleanEnd(s: seq<Byte>, pos: nat)
    ensures ReadFrames(s, pos) == Ok([]) <==> AtEnd(s, pos)
  {
  }

  /** A frame whose data runs past the end of the archive is `UnexpectedEof`. */
  lemma TruncatedDataIsEof(s: seq<Byte>, pos: nat)
    requires !AtEnd(s, pos) && ReadFrameHeader(s, pos).Ok?
    requires ReadFrameHeader(s, pos).value.1 + ReadFrameHeader(s, pos).value.0.size > |s|
    ensures ReadFrames(s, pos) == Err(UnexpectedEof)
  {
  }

  /** A frame whose path bytes are present but not UTF-8 is `InvalidData`. */
  lemma NonUtf8PathIsInvalidData(s: seq<Byte>, pos: nat)
    requires !AtEnd(s, pos)
    requires pos + 2 + FromLE(s[pos..pos + 2]) <= |s|
    requires !Utf8.Valid(s[pos + 2..pos + 2 + FromLE(s[pos..pos + 2])])
    ensures ReadFrames(s, pos) == Err(InvalidData)
  {
    ReadFrameHeaderSpec(s, pos);
  }

  /**
   * The first frame of a successful read, and where the rest of the loop
   * resumes: each frame consumes its 42-byte overhead, its path and its
   * `size` data bytes, in that order.
   */
  lemma ReadFramesFirst(s: seq<Byte>, pos: nat)
    requires ReadFrames(s, pos).Ok? && |ReadFrames(s, pos).value| > 0
    ensures !AtEnd(s, pos) && ReadFrameHeader(s, pos).Ok?
    ensures var (h, data) := ReadFrameHeader(s, pos).value;
      && data == pos + FrameOverhead + |h.path|
      && data + h.size <= |s|
      && ReadFrames(s, data + h.size).Ok?
      && ReadFrames(s, pos).value == [Frame(h.path, h.size, h.hash, s[data..data + h.size])] + ReadFrames(s, data + h.size).value
  {
  }
}
