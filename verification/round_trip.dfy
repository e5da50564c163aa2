/**
 * How the writer and the two frame-walking readers fit together: what
 * `create_backup_file` writes, `verify_backup_file` reads back frame for
 * frame, and `restore_backup`, given a restore directory that accepts every
 * file, recreates exactly the frames `verify_backup_file` reads and counts
 * them the same way.
 */
module RoundTrip {
  import opened Bytes
  import opened Wrappers
  import opened RustPath
  import opened Container
  import opened Entries
  import opened BackupFile
  import VerifyArchive
  import Restore
  import Inspect
  import ManifestBuilder

  /** A destination whose parent and the file itself can be created and written. */
  predicate Accepts(env: Restore.RestoreEnv, dest: seq<Byte>)
  {
    env.makeParentsOk(dest) && env.createFileOk(dest) && env.writeOk(dest)
  }

  /** A filesystem in which every destination can be created and written. */
  ghost predicate AcceptsAll(env: Restore.RestoreEnv)
  {
    forall dest :: Accepts(env, dest)
  }

  /** What restoring each of `fs` into an accepting directory records: the file, its data and whether it is intact. */
  function Restorations(fs: seq<Frame>, hash: seq<Byte> -> Digest): (r: seq<Restore.Action>)
    ensures |r| == |fs|
  {
    if |fs| == 0 then []
    else [Restore.Restored(fs[0].path, fs[0].data, hash(fs[0].data) == fs[0].hash)] + Restorations(fs[1..], hash)
  }

  /** The restore loop's outcome agrees with the verify loop's: the same frames on success, the same error otherwise. */
  predicate Agrees(read: Result<seq<Frame>, IoErrorKind>, loop: Restore.LoopResult, hash: seq<Byte> -> Digest)
  {
    match read
    case Ok(fs) => loop == Restore.LoopResult(Restorations(fs, hash), None)
    case Err(e) => loop.error == Some(e)
  }

  /** One frame whose data is present, followed by loops that agree, gives loops that agree. */
  lemma AgreesStep(read: Result<seq<Frame>, IoErrorKind>, rest: Result<seq<Frame>, IoErrorKind>,
                   loop: Restore.LoopResult, restLoop: Restore.LoopResult, f: Frame, hash: seq<Byte> -> Digest)
    requires Agrees(rest, restLoop, hash)
    requires rest.Err? ==> read == rest
    requires rest.Ok? ==> read == Ok([f] + rest.value)
    requires loop == Restore.Prepend(Restore.Restored(f.path, f.data, hash(f.data) == f.hash), restLoop)
    ensures Agrees(read, loop, hash)
  {
    if rest.Ok? {
      assert ([f] + rest.value)[1..] == rest.value;
    }
  }

  /**
   * Into a directory that accepts every file, the restore loop and the
   * verify loop walk the same frames: restore recreates each frame verify
   * reads, in order, and stops with verify's error when verify fails.
   */
  lemma {:induction false} RestoreMatchesRead(s: seq<Byte>, pos: nat, hash: seq<Byte> -> Digest, env: Restore.RestoreEnv)
    requires AcceptsAll(env)
    ensures Agrees(VerifyArchive.ReadFrames(s, pos), Restore.RestoreFrames(s, pos, hash, env), hash)
    decreases Position(s, pos)
  {
    if !AtEnd(s, pos) {
      var r := ReadFrameHeader(s, pos);
      if r.Ok? {
        var (h, next) := r.value;
        Restore.RestoreFramesUnfold(s, pos, hash, env, h, next);
        assert Accepts(env, Restore.Destination(env, h.path));
        if next + h.size <= |s| {
          RestoreMatchesRead(s, next + h.size, hash, env);
          var f := Frame(h.path, h.size, h.hash, s[next..next + h.size]);
          VerifyArchive.ReadFramesNext(s, pos, h, next);
          Restore.RestoredFrame(s, pos, hash, env, h, next);
          AgreesStep(VerifyArchive.ReadFrames(s, pos), VerifyArchive.ReadFrames(s, next + h.size),
                     Restore.RestoreFrames(s, pos, hash, env), Restore.RestoreFrames(s, next + h.size, hash, env), f, hash);
        }
      }
    }
  }

  /** Restoring the frames counts the intact ones as restored and the others as mismatched, exactly as verify does. */
  lemma {:induction false} CountRestorations(fs: seq<Frame>, hash: seq<Byte> -> Digest)
    ensures Restore.Settled(Restorations(fs, hash))
    ensures Restore.Count(Restorations(fs, hash))
         == Restore.Counters(VerifyArchive.Count(fs, hash).ok, VerifyArchive.Count(fs, hash).mismatched, 0)
  {
    if |fs| > 0 {
      CountRestorations(fs[1..], hash);
      var r := Restorations(fs, hash);
      assert r[1..] == Restorations(fs[1..], hash);
    }
  }

  /**
   * `lax` accepts every manifest `strict` accepts, and finds as many files
   * in it: the struct `lax` deserializes into asks for a subset of the
   * fields the struct of `strict` asks for, and unknown fields are ignored.
   */
  ghost predicate Laxer(strict: seq<Byte> -> Option<Manifest>, lax: seq<Byte> -> Option<Manifest>)
  {
    forall m :: strict(m).Some? ==> lax(m).Some? && |lax(m).value.files| == |strict(m).value.files|
  }

  /** Inspect's manifest struct asks for every field verify's does, and verify's for every field restore's does. */
  ghost predicate Nested(parseInspect: seq<Byte> -> Option<Manifest>, parseVerify: seq<Byte> -> Option<Manifest>,
                         parseRestore: seq<Byte> -> Option<Manifest>)
  {
    Laxer(parseInspect, parseVerify) && Laxer(parseVerify, parseRestore)
  }

  lemma LaxerRefl(parse: seq<Byte> -> Option<Manifest>)
    ensures Laxer(parse, parse)
  {
  }

  /**
   * A laxer deserializer passes every header a stricter one passes, with the
   * first frame at the same offset; where the laxer one fails, both fail
   * alike; and the stricter one fails alone only on a manifest it rejects.
   */
  lemma LaxerHeader(s: seq<Byte>, strict: seq<Byte> -> Option<Manifest>, lax: seq<Byte> -> Option<Manifest>)
    requires Laxer(strict, lax)
    ensures ReadHeader(s, strict).Ok? ==>
      && ReadHeader(s, lax).Ok?
      && ReadHeader(s, lax).value.next == ReadHeader(s, strict).value.next
      && |ReadHeader(s, lax).value.manifest.files| == |ReadHeader(s, strict).value.manifest.files|
    ensures ReadHeader(s, lax).Err? ==> ReadHeader(s, strict) == ReadHeader(s, lax)
    ensures ReadHeader(s, strict).Err? && ReadHeader(s, lax).Ok? ==> ReadHeader(s, strict) == Err(InvalidData)
  {
    ReadHeaderSpec(s, strict);
    ReadHeaderSpec(s, lax);
  }

  /**
   * Into a directory that accepts every file, `restore_backup` walks the
   * same frames `verify_backup_file` does. Past restore's own header
   * checks, restore succeeds exactly when the verify loop from the first
   * frame does, fails with its error otherwise, and recreates every frame
   * it reads. Since restore's manifest struct is laxer than verify's,
   * whenever verify succeeds restore does too, with `restored` and
   * `mismatched` equal to verify's `ok` and `mismatched` and nothing
   * `failed`; once verify's header checks pass, the two succeed together.
   */
  lemma RestoreAgreesWithVerify(s: seq<Byte>, parseVerify: seq<Byte> -> Option<Manifest>, parseRestore: seq<Byte> -> Option<Manifest>,
                                hash: seq<Byte> -> Digest, env: Restore.RestoreEnv)
    requires Laxer(parseVerify, parseRestore)
    requires AcceptsAll(env)
    requires env.target != Restore.NotDirectory && (env.target == Restore.Missing ==> env.createTargetOk)
    ensures var r := Restore.RestoreBackup(s, parseRestore, hash, env);
      ReadHeader(s, parseRestore).Ok? ==>
        var read := VerifyArchive.ReadFrames(s, ReadHeader(s, parseRestore).value.next);
        && (r.result.Ok? <==> read.Ok?)
        && (read.Err? ==> r.result == Err(read.error))
        && (read.Ok? ==> r.actions == Restorations(read.value, hash))
    ensures var v := VerifyArchive.VerifyBackupFile(s, parseVerify, hash);
      var r := Restore.RestoreBackup(s, parseRestore, hash, env);
      && (v.Ok? ==>
            && r.result.Ok?
            && r.actions == Restorations(v.value.frames, hash)
            && r.result.value == Restore.Counters(v.value.tally.ok, v.value.tally.mismatched, 0))
      && (ReadHeader(s, parseVerify).Ok? ==> (r.result.Ok? <==> v.Ok?) && (v.Err? ==> r.result == Err(v.error)))
      && (ReadHeader(s, parseRestore).Err? ==> v.Err? && r.result == Err(v.error))
  {
    LaxerHeader(s, parseVerify, parseRestore);
    match ReadHeader(s, parseRestore)
    case Err(e) =>
    case Ok(hdr) =>
      Restore.RestoreBackupOf(s, parseRestore, hash, env, hdr);
      RestoreMatchesRead(s, hdr.next, hash, env);
      var read := VerifyArchive.ReadFrames(s, hdr.next);
      if read.Ok? {
        CountRestorations(read.value, hash);
      }
  }

  /**
   * The other side of restore's laxer manifest: an archive with a good
   * header and no frames, whose manifest restore's struct accepts and
   * verify's rejects (say one without `backup_file`), is restored without
   * error while verify and inspect report `InvalidData`.
   */
  lemma RestoreAcceptsWhatVerifyRejects(manifest: seq<Byte>, parseInspect: seq<Byte> -> Option<Manifest>,
                                        parseVerify: seq<Byte> -> Option<Manifest>, parseRestore: seq<Byte> -> Option<Manifest>,
                                        hash: seq<Byte> -> Digest, env: Restore.RestoreEnv)
    requires Nested(parseInspect, parseVerify, parseRestore)
    requires |manifest| < U64Limit && parseRestore(manifest).Some? && parseVerify(manifest).None?
    requires env.target != Restore.NotDirectory && (env.target == Restore.Missing ==> env.createTargetOk)
    ensures var s := EncodeHeader(manifest);
      && Restore.RestoreBackup(s, parseRestore, hash, env).result == Ok(Restore.Counters(0, 0, 0))
      && VerifyArchive.VerifyBackupFile(s, parseVerify, hash) == Err(InvalidData)
      && Inspect.InspectBackup(s, parseInspect) == Err(InvalidData)
  {
    var s := EncodeHeader(manifest);
    assert s + [] == s;
    ReadEncodedHeader(manifest, [], parseRestore);
    ReadHeaderSpec(s, parseVerify);
    ReadHeaderSpec(s, parseInspect);
    assert s[HeaderSize..HeaderSize + |manifest|] == manifest;
    Restore.CleanEnd(s, HeaderSize + |manifest|, hash, env);
  }

  /**
   * Where restore puts an entry the writer stored relative to the source
   * root: at that relative path below the restore directory, so the tree
   * under the root is rebuilt under the restore directory.
   */
  lemma StoredEntryLandsBelow(env: Restore.RestoreEnv, path: RPath, root: RPath)
    requires StartsWith(path, root) && Utf8.Valid(JoinParts(path.parts[|root.parts|..]))
    ensures Parse(Restore.Destination(env, StoredPath(path, root))) == Join(Parse(env.dir), StripPrefix(path, root).value)
  {
    var rel := StripPrefix(path, root).value;
    Restore.DestinationJoins(env, StoredPath(path, root));
    ParseRender(rel);
    if |rel.parts| > 0 {
      JoinPartsStart(rel.parts);
      assert rel.parts[0][0] in rel.parts[0];
    }
  }

  /**
   * An entry outside the source root is stored with its whole absolute
   * path, and restore writes it back there, whatever the restore
   * directory is.
   */
  lemma OutsideEntryEscapes(env: Restore.RestoreEnv, path: RPath, root: RPath)
    requires path.absolute && !StartsWith(path, root) && Utf8.Valid(Render(path))
    ensures Restore.Destination(env, StoredPath(path, root)) == Render(path)
  {
    assert Render(path)[0] == Slash;
    Restore.DestinationJoins(env, StoredPath(path, root));
  }

  /** A source that still holds at least the hashed size when it is re-read. */
  predicate Supplies(open: RPath -> SourceFile, h: HashedFile)
  {
    |Available(open(h.entry.path))| >= h.entry.size
  }

  /** When every source still holds its hashed size, every kept frame is complete. */
  lemma FramesComplete(root: RPath, files: seq<HashedFile>, open: RPath -> SourceFile, frames: seq<Frame>)
    requires forall h :: h in files ==> Supplies(open, h)
    requires FramesOf(root, Kept(root, files), open, frames)
    ensures forall i :: 0 <= i < |frames| ==> Encodable(frames[i]) && Complete(frames[i]) && Utf8.Valid(frames[i].path)
  {
    var kept := Kept(root, files);
    forall i | 0 <= i < |frames|
      ensures Encodable(frames[i]) && Complete(frames[i]) && Utf8.Valid(frames[i].path)
    {
      assert FrameOf(root, kept[i], open, frames[i]);
      assert kept[i] in files;
    }
  }

  /** When every source still holds its hashed size, re-reading never fails. */
  lemma NoReadFails(root: RPath, files: seq<HashedFile>, open: RPath -> SourceFile)
    requires forall h :: h in files ==> Supplies(open, h)
    ensures !ReadFails(root, files, open)
  {
    var kept := Kept(root, files);
    forall i | 0 <= i < |kept|
      ensures FrameData(kept[i].entry.size, open(kept[i].entry.path)).Ok?
    {
      assert kept[i] in files;
    }
  }

  /**
   * Round trip through `verify_backup_file`: when the output can be created
   * and every source still holds its hashed size, the archive is written
   * and verify reads back one complete frame per entry whose path fits, in
   * input order, with the entry's stored path, size and digest and its
   * first `size` bytes; it warns exactly when that count differs from the
   * manifest's.
   */
  lemma CreateThenVerify(sink: Sink, root: RPath, files: seq<HashedFile>, manifest: seq<Byte>, open: RPath -> SourceFile,
                         parse: seq<Byte> -> Option<Manifest>, hash: seq<Byte> -> Digest)
    requires |manifest| < U64Limit && parse(manifest).Some?
    requires sink.createOk && sink.capacity.None?
    requires forall h :: h in files ==> Supplies(open, h)
    ensures CreateBackupFile(sink, root, files, manifest, open).Ok?
    ensures var v := VerifyArchive.VerifyBackupFile(CreateBackupFile(sink, root, files, manifest, open).value, parse, hash);
      && v.Ok?
      && FramesOf(root, Kept(root, files), open, v.value.frames)
      && (forall i :: 0 <= i < |v.value.frames| ==> Complete(v.value.frames[i]))
      && (v.value.countWarning <==> |Kept(root, files)| != |parse(manifest).value.files|)
  {
    NoReadFails(root, files, open);
    CreateBackupFileLayout(sink, root, files, manifest, open);
    var frames := WriteFrames(root, files, open).value;
    FramesComplete(root, files, open, frames);
    VerifyArchive.VerifyEncoded(manifest, frames, parse, hash);
  }

  /**
   * Round trip through `restore_backup`: under the same conditions, and
   * into a directory that accepts every file, restore recreates one file per
   * entry whose path fits, in input order, holding the entry's first `size`
   * bytes, and reports every file as restored or mismatched.
   */
  lemma CreateThenRestore(sink: Sink, root: RPath, files: seq<HashedFile>, manifest: seq<Byte>, open: RPath -> SourceFile,
                          parse: seq<Byte> -> Option<Manifest>, hash: seq<Byte> -> Digest, env: Restore.RestoreEnv)
    requires |manifest| < U64Limit && parse(manifest).Some?
    requires sink.createOk && sink.capacity.None?
    requires forall h :: h in files ==> Supplies(open, h)
    requires AcceptsAll(env)
    requires env.target != Restore.NotDirectory && (env.target == Restore.Missing ==> env.createTargetOk)
    ensures CreateBackupFile(sink, root, files, manifest, open).Ok?
    ensures var r := Restore.RestoreBackup(CreateBackupFile(sink, root, files, manifest, open).value, parse, hash, env);
      && r.result.Ok?
      && |r.actions| == |Kept(root, files)|
      && r.result.value.restored + r.result.value.mismatched == |Kept(root, files)|
      && r.result.value.failed == 0
      && forall i :: 0 <= i < |r.actions| ==>
           var h := Kept(root, files)[i];
           && r.actions[i].Restored?
           && r.actions[i].path == StoredPath(h.entry.path, root)
           && |r.actions[i].data| == h.entry.size
           && r.actions[i].data == Available(open(h.entry.path))[..Min(h.entry.size, |Available(open(h.entry.path))|)]
  {
    CreateThenVerify(sink, root, files, manifest, open, parse, hash);
    var out := CreateBackupFile(sink, root, files, manifest, open).value;
    LaxerRefl(parse);
    RestoreAgreesWithVerify(out, parse, parse, hash, env);
    var v := VerifyArchive.VerifyBackupFile(out, parse, hash);
    var frames := v.value.frames;
    RestorationsOf(frames, hash);
    KeptFrames(root, files, open, frames);
  }

  /** Under the same conditions each written frame carries all `size` bytes of its entry. */
  lemma KeptFrames(root: RPath, files: seq<HashedFile>, open: RPath -> SourceFile, frames: seq<Frame>)
    requires forall h :: h in files ==> Supplies(open, h)
    requires FramesOf(root, Kept(root, files), open, frames)
    ensures forall i :: 0 <= i < |frames| ==>
      var h := Kept(root, files)[i];
      && frames[i].path == StoredPath(h.entry.path, root)
      && |frames[i].data| == h.entry.size
      && frames[i].data == Available(open(h.entry.path))[..Min(h.entry.size, |Available(open(h.entry.path))|)]
  {
    var kept := Kept(root, files);
    forall i | 0 <= i < |frames|
      ensures |frames[i].data| == kept[i].entry.size
    {
      assert FrameOf(root, kept[i], open, frames[i]);
      assert kept[i] in files;
    }
  }

  lemma {:induction false} RestorationsOf(fs: seq<Frame>, hash: seq<Byte> -> Digest)
    ensures forall i :: 0 <= i < |fs| ==>
      Restorations(fs, hash)[i] == Restore.Restored(fs[i].path, fs[i].data, hash(fs[i].data) == fs[i].hash)
  {
    if |fs| > 0 {
      RestorationsOf(fs[1..], hash);
      var r := Restorations(fs, hash);
      forall i | 1 <= i < |fs|
        ensures r[i] == Restore.Restored(fs[i].path, fs[i].data, hash(fs[i].data) == fs[i].hash)
      {
        assert r[i] == Restorations(fs[1..], hash)[i - 1];
        assert fs[i] == fs[1..][i - 1];
      }
    }
  }

  /**
   * With a manifest that lists one file per hashed file (as
   * `ManifestFiles` builds it), verifying a fresh archive warns about the
   * record count exactly when some stored path was too long for a frame.
   */
  lemma CreateThenVerifyWarns(sink: Sink, root: RPath, files: seq<HashedFile>, manifest: seq<Byte>, open: RPath -> SourceFile,
                              parse: seq<Byte> -> Option<Manifest>, hash: seq<Byte> -> Digest)
    requires |manifest| < U64Limit && parse(manifest).Some?
    requires |parse(manifest).value.files| == |files|
    requires sink.createOk && sink.capacity.None?
    requires forall h :: h in files ==> Supplies(open, h)
    ensures CreateBackupFile(sink, root, files, manifest, open).Ok?
    ensures var v := VerifyArchive.VerifyBackupFile(CreateBackupFile(sink, root, files, manifest, open).value, parse, hash);
      && v.Ok?
      && (v.value.countWarning <==> exists i :: 0 <= i < |files| && !Fits(root, files[i]))
  {
    CreateThenVerify(sink, root, files, manifest, open, parse, hash);
    KeptAll(root, files);
  }

  /**
   * Inspecting a fresh archive whose manifest lists the hashed files reports
   * one file per entry, and lists the first entries' stored paths and sizes
   * in order.
   */
  lemma CreateThenInspect(sink: Sink, root: RPath, files: seq<HashedFile>, manifest: seq<Byte>, open: RPath -> SourceFile,
                          parse: seq<Byte> -> Option<Manifest>)
    requires |manifest| < U64Limit && parse(manifest).Some?
    requires parse(manifest).value.files == ManifestBuilder.ManifestFiles(root, files)
    requires CreateBackupFile(sink, root, files, manifest, open).Ok?
    ensures var r := Inspect.InspectBackup(CreateBackupFile(sink, root, files, manifest, open).value, parse);
      && r.Ok?
      && r.value.fileCount == |files|
      && r.value.totalSize == Inspect.TotalSize(parse(manifest).value.files)
      && |r.value.sample| == Min(Inspect.SampleSize, |files|)
      && forall i :: 0 <= i < |r.value.sample| ==>
           r.value.sample[i].path == StoredPath(files[i].entry.path, root) && r.value.sample[i].size == files[i].entry.size
  {
    CreateBackupFileLayout(sink, root, files, manifest, open);
    ReadEncodedHeader(manifest, EncodeFrames(WriteFrames(root, files, open).value), parse);
  }

  /**
   * The three readers share the header checks, each with its own manifest
   * struct. Where restore's laxest struct fails, or verify's, the readers
   * from there to the strictest report the same error and restore creates
   * nothing. An archive inspect accepts passes verify's and restore's
   * header checks too, with the first frame at the same offset, and inspect
   * counts as many manifest files as verify does.
   */
  lemma ReadersShareHeaderChecks(s: seq<Byte>, parseInspect: seq<Byte> -> Option<Manifest>,
                                 parseVerify: seq<Byte> -> Option<Manifest>, parseRestore: seq<Byte> -> Option<Manifest>,
                                 hash: seq<Byte> -> Digest, env: Restore.RestoreEnv)
    requires Nested(parseInspect, parseVerify, parseRestore)
    ensures ReadHeader(s, parseRestore).Err? ==>
      var e := ReadHeader(s, parseRestore).error;
      && Inspect.InspectBackup(s, parseInspect) == Err(e)
      && VerifyArchive.VerifyBackupFile(s, parseVerify, hash) == Err(e)
      && Restore.RestoreBackup(s, parseRestore, hash, env) == Restore.RestoreReport(false, [], Err(e))
    ensures ReadHeader(s, parseVerify).Err? ==>
      var e := ReadHeader(s, parseVerify).error;
      && Inspect.InspectBackup(s, parseInspect) == Err(e)
      && VerifyArchive.VerifyBackupFile(s, parseVerify, hash) == Err(e)
    ensures Inspect.InspectBackup(s, parseInspect).Ok? ==>
      && ReadHeader(s, parseVerify).Ok? && ReadHeader(s, parseRestore).Ok?
      && ReadHeader(s, parseVerify).value.next == ReadHeader(s, parseInspect).value.next
      && ReadHeader(s, parseRestore).value.next == ReadHeader(s, parseInspect).value.next
    ensures Inspect.InspectBackup(s, parseInspect).Ok? && VerifyArchive.VerifyBackupFile(s, parseVerify, hash).Ok? ==>
      Inspect.InspectBackup(s, parseInspect).value.fileCount == VerifyArchive.VerifyBackupFile(s, parseVerify, hash).value.manifestCount
    ensures VerifyArchive.VerifyBackupFile(s, parseVerify, hash).Ok? ==> ReadHeader(s, parseRestore).Ok?
  {
    LaxerHeader(s, parseInspect, parseVerify);
    LaxerHeader(s, parseVerify, parseRestore);
  }
}
