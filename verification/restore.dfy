/**
 * `restore_backup`: parses the header and manifest, makes sure the restore
 * directory exists, then recreates one file per frame. A file whose
 * directory or file cannot be created is skipped (its data is seeked over);
 * a digest mismatch keeps the file and is only counted. The manifest's file
 * list is never compared with the frames.
 *
 * Each frame is written to `restore_dir.join(path)`, with `path` as the
 * archive stores it: an absolute path replaces the restore directory, and
 * `..` pieces climb out of it. The filesystem is an oracle keyed by that
 * destination: whether `create_dir_all` of its parent succeeds, whether
 * `File::create` succeeds, and whether writing the data succeeds.
 */
module Restore {
  import opened Bytes
  import opened Wrappers
  import opened Container
  import opened RustPath

  /** What `restore_dir` is before the run. */
  datatype Target = Missing | IsDirectory | NotDirectory

  datatype RestoreEnv = RestoreEnv(
    /** The bytes of `restore_dir`. */
    dir: seq<Byte>,
    target: Target,
    /** `create_dir_all(restore_dir)` succeeds. */
    createTargetOk: bool,
    /** `create_dir_all` of the destination's parent succeeds (or it has none). */
    makeParentsOk: seq<Byte> -> bool,
    /** `File::create` of the destination succeeds. */
    createFileOk: seq<Byte> -> bool,
    /** Writing and flushing the created file's data succeeds. */
    writeOk: seq<Byte> -> bool)

  /** What the loop did with one frame. */
  datatype Action =
      /** The file was created and received `data`; `intact` says whether its digest matched. */
    | Restored(path: seq<Byte>, data: seq<Byte>, intact: bool)
      /** Its directory or the file could not be created; its `size` data bytes were skipped. */
    | Failed(path: seq<Byte>, size: nat)
      /** The file was created but the archive ended inside its data; it keeps what was read. */
    | Truncated(path: seq<Byte>, data: seq<Byte>)
      /** The file was created but writing to it failed. */
    | WriteFailed(path: seq<Byte>)

  /** The actions the loop performed, and the error that ended it, if any. */
  datatype LoopResult = LoopResult(actions: seq<Action>, error: Option<IoErrorKind>)

  datatype Counters = Counters(restored: nat, mismatched: nat, failed: nat)

  /** The outcome of a run: whether the restore directory was created, the actions taken, and the result. */
  datatype RestoreReport = RestoreReport(createdTarget: bool, actions: seq<Action>, result: Result<Counters, IoErrorKind>)

  /**
   * Where skipping `size` data bytes is meant to leave a reader at `pos`:
   * `size` bytes further on, even past the end of the archive (the next
   * `read_exact` then reports end of file). `RestoreFrames` resumes there.
   */
  function Skip(pos: nat, size: nat): (r: nat)
    ensures r >= pos
    ensures size > 0 ==> r > pos
  {
    pos + size
  }

  /** `restore_dir.join(path)`: where the frame stored under `path` is written. */
  function Destination(env: RestoreEnv, path: seq<Byte>): seq<Byte>
  {
    PushBytes(env.dir, path)
  }

  /**
   * The destination is the stored path itself when that is absolute, and
   * otherwise names the stored path's pieces below the restore directory.
   */
  lemma DestinationJoins(env: RestoreEnv, path: seq<Byte>)
    ensures IsAbsoluteBytes(path) ==> Destination(env, path) == path
    ensures Parse(Destination(env, path)) == Join(Parse(env.dir), Parse(path))
  {
    PushJoins(env.dir, path);
  }

  function Prepend(a: Action, r: LoopResult): LoopResult
  {
    LoopResult([a] + r.actions, r.error)
  }

  /**
   * One pass of the loop body for a frame with header `h`, given the data
   * bytes the archive still holds for it (`avail`, which is all `size` of
   * them when `complete`) and what the loop does from the next frame on.
   */
  function Handle(h: FrameHeader, avail: seq<Byte>, complete: bool, hash: seq<Byte> -> Digest, env: RestoreEnv, rest: LoopResult)
    : (r: LoopResult)
  {
    var dest := Destination(env, h.path);
    if !env.makeParentsOk(dest) || !env.createFileOk(dest) then Prepend(Failed(h.path, h.size), rest)
    else if !complete then LoopResult([Truncated(h.path, avail)], Some(UnexpectedEof))
    else if h.size > 0 && !env.writeOk(dest) then LoopResult([WriteFailed(h.path)], Some(Os))
    else Prepend(Restored(h.path, avail, hash(avail) == h.hash), rest)
  }

  /**
   * What one frame contributes: an action naming its path first; a failure
   * exactly when a directory or the file could not be created; a restored
   * file only for a complete frame, holding its bytes and flagged intact
   * exactly when the digest matches; and the loop goes on after a restored
   * or failed frame and stops with an error after any other.
   */
  lemma HandleOutcome(h: FrameHeader, avail: seq<Byte>, complete: bool, hash: seq<Byte> -> Digest, env: RestoreEnv, rest: LoopResult)
    ensures var r := Handle(h, avail, complete, hash, env, rest);
      && |r.actions| > 0 && r.actions[0].path == h.path
      && (r.actions[0].Failed? <==> !env.makeParentsOk(Destination(env, h.path)) || !env.createFileOk(Destination(env, h.path)))
      && (r.actions[0].Restored? ==> complete && r.actions[0].data == avail && (r.actions[0].intact <==> hash(avail) == h.hash))
      && (r.actions[0].Restored? || r.actions[0].Failed? ==> r.actions[1..] == rest.actions && r.error == rest.error)
      && (!(r.actions[0].Restored? || r.actions[0].Failed?) ==> |r.actions| == 1 && r.error.Some?)
  {
  }

  /**
   * The `loop` of `restore_backup` from the frame boundary `pos`. A skipped
   * frame and a restored one both leave the reader `size` bytes after the
   * frame header, so the rest of the loop starts there in either case.
   */
  function RestoreFrames(s: seq<Byte>, pos: nat, hash: seq<Byte> -> Digest, env: RestoreEnv): (r: LoopResult)
    decreases Position(s, pos)
  {
    if AtEnd(s, pos) then LoopResult([], None)
    else
      var read := ReadFrameHeader(s, pos);
      if read.Err? then LoopResult([], Some(read.error))
      else
        var h := read.value.0;
        var next := read.value.1;
        Handle(h, s[next..Min(next + h.size, |s|)], next + h.size <= |s|, hash, env, RestoreFrames(s, next + h.size, hash, env))
  }

  /** The `restored`, `mismatched` and `failed` counters after `actions`. */
  function Count(actions: seq<Action>): (c: Counters)
    ensures c.restored + c.mismatched + c.failed <= |actions|
  {
    if |actions| == 0 then Counters(0, 0, 0)
    else
      var c := Count(actions[1..]);
      match actions[0]
      case Restored(_, _, intact) =>
        if intact then Counters(c.restored + 1, c.mismatched, c.failed)
        else Counters(c.restored, c.mismatched + 1, c.failed)
      case Failed(_, _) => Counters(c.restored, c.mismatched, c.failed + 1)
      case Truncated(_, _) => c
      case WriteFailed(_) => c
  }

  /** Every action of a loop that ended cleanly is a restore or a skip. */
  predicate Settled(actions: seq<Action>)
  {
    forall i :: 0 <= i < |actions| ==> actions[i].Restored? || actions[i].Failed?
  }

  /**
   * The end of `restore_backup` once the header and manifest are read: the
   * check of `restore_dir`, then the outcome of the loop `loop`.
   */
  function Report(env: RestoreEnv, loop: LoopResult): (r: RestoreReport)
    requires loop.error.None? ==> Settled(loop.actions)
    ensures env.target == NotDirectory ==> r == RestoreReport(false, [], Err(InvalidInput))
    ensures env.target == Missing && !env.createTargetOk ==> r == RestoreReport(false, [], Err(Os))
    ensures r.createdTarget <==> env.target == Missing && env.createTargetOk
    ensures r.actions != [] ==> r.actions == loop.actions
    ensures r.result.Ok? ==> Settled(r.actions) && r.result.value == Count(r.actions)
    ensures r.result.Ok? ==>
      r.result.value.restored + r.result.value.mismatched + r.result.value.failed == |r.actions|
  {
    if env.target == NotDirectory then RestoreReport(false, [], Err(InvalidInput))
    else if env.target == Missing && !env.createTargetOk then RestoreReport(false, [], Err(Os))
    else
      var created := env.target == Missing;
      match loop.error
      case Some(e) => RestoreReport(created, loop.actions, Err(e))
      case None =>
        CountSettled(loop.actions);
        RestoreReport(created, loop.actions, Ok(Count(loop.actions)))
  }

  /**
   * `restore_backup` on the archive bytes `s`. `parse` is this reader's own manifest
   * deserializer and `hash` SHA-256.
   */
  function RestoreBackup(s: seq<Byte>, parse: seq<Byte> -> Option<Manifest>, hash: seq<Byte> -> Digest, env: RestoreEnv)
    : (r: RestoreReport)
    ensures ReadHeader(s, parse).Err? ==> r == RestoreReport(false, [], Err(ReadHeader(s, parse).error))
    ensures ReadHeader(s, parse).Ok? && env.target == NotDirectory ==> r == RestoreReport(false, [], Err(InvalidInput))
    ensures ReadHeader(s, parse).Ok? && env.target == Missing && !env.createTargetOk ==> r == RestoreReport(false, [], Err(Os))
    ensures r.createdTarget <==> ReadHeader(s, parse).Ok? && env.target == Missing && env.createTargetOk
    ensures r.actions != [] ==> ReadHeader(s, parse).Ok? && env.target != NotDirectory
    ensures r.result.Ok? ==> Settled(r.actions) && r.result.value == Count(r.actions)
    ensures r.result.Ok? ==>
      r.result.value.restored + r.result.value.mismatched + r.result.value.failed == |r.actions|
  {
    match ReadHeader(s, parse)
    case Err(e) => RestoreReport(false, [], Err(e))
    case Ok(hdr) =>
      RestoreFramesSettled(s, hdr.next, hash, env);
      Report(env, RestoreFrames(s, hdr.next, hash, env))
  }

  /**
   * The loop stops only on end of file, a malformed frame header or a failed
   * write, and when it reaches the end cleanly every frame was either
   * restored or skipped.
   */
  lemma {:induction false} RestoreFramesSettled(s: seq<Byte>, pos: nat, hash: seq<Byte> -> Digest, env: RestoreEnv)
    ensures var r := RestoreFrames(s, pos, hash, env);
      && (r.error.Some? ==> r.error.value == UnexpectedEof || r.error.value == InvalidData || r.error.value == Os)
      && (r.error.None? ==> Settled(r.actions))
    decreases Position(s, pos)
  {
    if !AtEnd(s, pos) && ReadFrameHeader(s, pos).Ok? {
      var h := ReadFrameHeader(s, pos).value.0;
      var next := ReadFrameHeader(s, pos).value.1;
      RestoreFramesUnfold(s, pos, hash, env, h, next);
      var rest := RestoreFrames(s, next + h.size, hash, env);
      RestoreFramesSettled(s, next + h.size, hash, env);
      HandleOutcome(h, s[next..Min(next + h.size, |s|)], next + h.size <= |s|, hash, env, rest);
      var r := RestoreFrames(s, pos, hash, env);
      if r.error.None? {
        forall i | 0 <= i < |r.actions| ensures r.actions[i].Restored? || r.actions[i].Failed? {
          if i > 0 {
            assert r.actions[i] == r.actions[1..][i - 1];
          }
        }
      }
    }
  }

  /** On settled actions the three counters account for every action. */
  lemma {:induction false} CountSettled(actions: seq<Action>)
    requires Settled(actions)
    ensures Count(actions).restored + Count(actions).mismatched + Count(actions).failed == |actions|
  {
    if |actions| > 0 {
      assert Settled(actions[1..]) by {
        forall i | 0 <= i < |actions[1..]| ensures actions[1..][i].Restored? || actions[1..][i].Failed? {
          assert actions[1..][i] == actions[i + 1];
        }
      }
      CountSettled(actions[1..]);
    }
  }

  /** The archive bytes from `pos` on; nothing once `pos` is past the end. */
  function Rest(s: seq<Byte>, pos: nat): seq<Byte>
  {
    if pos <= |s| then s[pos..] else []
  }

  /** One pass of the loop at a frame boundary whose header reads as `h`, ending at `next`. */
  lemma RestoreFramesUnfold(s: seq<Byte>, pos: nat, hash: seq<Byte> -> Digest, env: RestoreEnv, h: FrameHeader, next: nat)
    requires !AtEnd(s, pos) && ReadFrameHeader(s, pos) == Ok((h, next))
    ensures next <= |s|
    ensures RestoreFrames(s, pos, hash, env)
      == Handle(h, s[next..Min(next + h.size, |s|)], next + h.size <= |s|, hash, env, RestoreFrames(s, next + h.size, hash, env))
  {
    var read := ReadFrameHeader(s, pos);
    assert read.value.0 == h && read.value.1 == next;
  }

  /**
   * A frame whose file can be created and written, and whose data is all
   * present, is restored with exactly its `size` data bytes and marked
   * intact exactly when they hash to its digest; the loop then goes on
   * with the next frame.
   */
  lemma RestoredFrame(s: seq<Byte>, pos: nat, hash: seq<Byte> -> Digest, env: RestoreEnv, h: FrameHeader, next: nat)
    requires !AtEnd(s, pos) && ReadFrameHeader(s, pos) == Ok((h, next))
    requires var dest := Destination(env, h.path); env.makeParentsOk(dest) && env.createFileOk(dest) && env.writeOk(dest)
    requires next + h.size <= |s|
    ensures var data := s[next..next + h.size];
      RestoreFrames(s, pos, hash, env)
      == Prepend(Restored(h.path, data, hash(data) == h.hash), RestoreFrames(s, next + h.size, hash, env))
  {
    RestoreFramesUnfold(s, pos, hash, env, h, next);
  }

  /** The data of a frame, and what follows it, at the same distance from two equal suffixes. */
  lemma FrameDataShift(s: seq<Byte>, p: nat, t: seq<Byte>, q: nat, next: nat, next': nat, size: nat)
    requires p <= |s| && q <= |t| && s[p..] == t[q..]
    requires p <= next <= |s| && next - p == next' - q
    ensures next' <= |t|
    ensures s[next..Min(next + size, |s|)] == t[next'..Min(next' + size, |t|)]
    ensures next + size <= |s| <==> next' + size <= |t|
    ensures Rest(s, next + size) == Rest(t, next' + size)
  {
    assert |s| - p == |t| - q by { assert |s[p..]| == |t[q..]|; }
    var d := next - p;
    var e := Min(next + size, |s|) - p;
    SliceShift(s, p, t, q, d, e);
    if next + size <= |s| {
      assert s[next + size..] == s[p..][d + size..];
      assert t[next' + size..] == t[q..][d + size..];
    }
  }

  /** The loop reads only the bytes at and after `pos`. */
  lemma {:induction false} RestoreFramesShift(s: seq<Byte>, p: nat, t: seq<Byte>, q: nat, hash: seq<Byte> -> Digest, env: RestoreEnv)
    requires Rest(s, p) == Rest(t, q)
    ensures RestoreFrames(s, p, hash, env) == RestoreFrames(t, q, hash, env)
    decreases Position(s, p)
  {
    if AtEnd(s, p) {
      assert |Rest(s, p)| < 2;
      assert AtEnd(t, q);
    } else {
      var x, y, stop := NextBoundary(s, p, t, q, hash, env);
      if !stop {
        RestoreFramesShift(s, x, t, y, hash, env);
      }
    }
  }

  /**
   * One step of the loop from two boundaries with the same remaining bytes:
   * either both stop alike, or both go on to boundaries `x` and `y` that
   * again have the same remaining bytes, and agree if the loops from there do.
   */
  lemma NextBoundary(s: seq<Byte>, p: nat, t: seq<Byte>, q: nat, hash: seq<Byte> -> Digest, env: RestoreEnv)
    returns (x: nat, y: nat, stop: bool)
    requires Rest(s, p) == Rest(t, q) && !AtEnd(s, p)
    ensures stop ==> RestoreFrames(s, p, hash, env) == RestoreFrames(t, q, hash, env)
    ensures !stop ==> Rest(s, x) == Rest(t, y) && Position(s, x) < Position(s, p)
    ensures !stop && RestoreFrames(s, x, hash, env) == RestoreFrames(t, y, hash, env)
      ==> RestoreFrames(s, p, hash, env) == RestoreFrames(t, q, hash, env)
  {
    assert |Rest(s, p)| >= 2;
    ReadFrameHeaderShift(s, p, t, q);
    var read := ReadFrameHeader(s, p);
    if read.Err? {
      x, y, stop := 0, 0, true;
      BadHeaderStops(s, p, hash, env);
      BadHeaderStops(t, q, hash, env);
    } else {
      x, y := GoodHeaderStep(s, p, t, q, hash, env);
      stop := false;
    }
  }

  /** A frame header that reads leads both loops to boundaries with the same remaining bytes. */
  lemma GoodHeaderStep(s: seq<Byte>, p: nat, t: seq<Byte>, q: nat, hash: seq<Byte> -> Digest, env: RestoreEnv)
    returns (x: nat, y: nat)
    requires Rest(s, p) == Rest(t, q) && !AtEnd(s, p) && !AtEnd(t, q)
    requires ReadFrameHeader(s, p).Ok? && ReadFrameHeader(t, q).Ok?
    requires ReadFrameHeader(s, p).value.0 == ReadFrameHeader(t, q).value.0
    requires ReadFrameHeader(s, p).value.1 - p == ReadFrameHeader(t, q).value.1 - q
    ensures Rest(s, x) == Rest(t, y) && Position(s, x) < Position(s, p)
    ensures RestoreFrames(s, x, hash, env) == RestoreFrames(t, y, hash, env)
      ==> RestoreFrames(s, p, hash, env) == RestoreFrames(t, q, hash, env)
  {
    var h := ReadFrameHeader(s, p).value.0;
    var next := ReadFrameHeader(s, p).value.1;
    var next' := ReadFrameHeader(t, q).value.1;
    FrameDataShift(s, p, t, q, next, next', h.size);
    x, y := next + h.size, next' + h.size;
    if RestoreFrames(s, x, hash, env) == RestoreFrames(t, y, hash, env) {
      SameFrameSameStep(s, p, t, q, hash, env, h, next, next', x, y);
    }
  }

  /** A frame header that does not read ends the loop with its error and no action. */
  lemma BadHeaderStops(s: seq<Byte>, pos: nat, hash: seq<Byte> -> Digest, env: RestoreEnv)
    requires !AtEnd(s, pos) && ReadFrameHeader(s, pos).Err?
    ensures RestoreFrames(s, pos, hash, env) == LoopResult([], Some(ReadFrameHeader(s, pos).error))
  {
  }

  /** Two frame boundaries that read the same header, data and rest of loop contribute the same. */
  lemma SameFrameSameStep(s: seq<Byte>, p: nat, t: seq<Byte>, q: nat, hash: seq<Byte> -> Digest, env: RestoreEnv,
                          h: FrameHeader, next: nat, next': nat, x: nat, y: nat)
    requires !AtEnd(s, p) && ReadFrameHeader(s, p) == Ok((h, next))
    requires !AtEnd(t, q) && ReadFrameHeader(t, q) == Ok((h, next'))
    requires next <= |s| && next' <= |t| && x == next + h.size && y == next' + h.size
    requires s[next..Min(x, |s|)] == t[next'..Min(y, |t|)]
    requires x <= |s| <==> y <= |t|
    requires RestoreFrames(s, x, hash, env) == RestoreFrames(t, y, hash, env)
    ensures RestoreFrames(s, p, hash, env) == RestoreFrames(t, q, hash, env)
  {
    RestoreFramesUnfoldAt(s, p, hash, env, h, next, x);
    RestoreFramesUnfoldAt(t, q, hash, env, h, next', y);
  }

  /** `RestoreFramesUnfold` with the end of the frame data named `x`. */
  lemma RestoreFramesUnfoldAt(s: seq<Byte>, pos: nat, hash: seq<Byte> -> Digest, env: RestoreEnv, h: FrameHeader, next: nat, x: nat)
    requires !AtEnd(s, pos) && ReadFrameHeader(s, pos) == Ok((h, next)) && x == next + h.size
    ensures next <= |s|
    ensures RestoreFrames(s, pos, hash, env)
      == Handle(h, s[next..Min(x, |s|)], x <= |s|, hash, env, RestoreFrames(s, x, hash, env))
  {
    RestoreFramesUnfold(s, pos, hash, env, h, next);
  }

  /** Once the header is read, the run is the restore-directory check and the loop from the first frame. */
  lemma RestoreBackupOf(s: seq<Byte>, parse: seq<Byte> -> Option<Manifest>, hash: seq<Byte> -> Digest, env: RestoreEnv, hdr: Header)
    requires ReadHeader(s, parse) == Ok(hdr)
    ensures RestoreFrames(s, hdr.next, hash, env).error.None? ==> Settled(RestoreFrames(s, hdr.next, hash, env).actions)
    ensures RestoreBackup(s, parse, hash, env) == Report(env, RestoreFrames(s, hdr.next, hash, env))
  {
    RestoreFramesSettled(s, hdr.next, hash, env);
  }

  /**
   * The manifest's content plays no part in what is restored: two archives
   * whose manifests both parse and whose bytes after the manifest agree
   * restore the same files with the same counters.
   */
  lemma RestoreIgnoresManifest(s1: seq<Byte>, s2: seq<Byte>,
                               parse: seq<Byte> -> Option<Manifest>, hash: seq<Byte> -> Digest, env: RestoreEnv)
    requires ReadHeader(s1, parse).Ok? && ReadHeader(s2, parse).Ok?
    requires Rest(s1, ReadHeader(s1, parse).value.next) == Rest(s2, ReadHeader(s2, parse).value.next)
    ensures RestoreBackup(s1, parse, hash, env) == RestoreBackup(s2, parse, hash, env)
  {
    var h1 := ReadHeader(s1, parse).value;
    var h2 := ReadHeader(s2, parse).value;
    RestoreFramesShift(s1, h1.next, s2, h2.next, hash, env);
    RestoreBackupOf(s1, parse, hash, env, h1);
    RestoreBackupOf(s2, parse, hash, env, h2);
  }

  /** A frame whose file cannot be created is counted as failed and the loop resumes after its data. */
  lemma FailedSkipsData(s: seq<Byte>, pos: nat, hash: seq<Byte> -> Digest, env: RestoreEnv, h: FrameHeader, next: nat)
    requires !AtEnd(s, pos) && ReadFrameHeader(s, pos) == Ok((h, next))
    requires !env.makeParentsOk(Destination(env, h.path)) || !env.createFileOk(Destination(env, h.path))
    ensures RestoreFrames(s, pos, hash, env) == Prepend(Failed(h.path, h.size), RestoreFrames(s, next + h.size, hash, env))
  {
    RestoreFramesUnfold(s, pos, hash, env, h, next);
  }

  /**
   * A skipped frame whose data runs past the end of the archive is not an
   * error: the seek lands past the end and the loop ends cleanly.
   */
  lemma SkippedTruncationEndsClean(s: seq<Byte>, pos: nat, hash: seq<Byte> -> Digest, env: RestoreEnv)
    requires !AtEnd(s, pos) && ReadFrameHeader(s, pos).Ok?
    requires var (h, next) := ReadFrameHeader(s, pos).value;
      (!env.makeParentsOk(Destination(env, h.path)) || !env.createFileOk(Destination(env, h.path))) && next + h.size > |s|
    ensures var h := ReadFrameHeader(s, pos).value.0;
      RestoreFrames(s, pos, hash, env) == LoopResult([Failed(h.path, h.size)], None)
  {
  }

  /** A created file whose data runs past the end of the archive aborts the run with `UnexpectedEof`. */
  lemma TruncatedDataIsEof(s: seq<Byte>, pos: nat, hash: seq<Byte> -> Digest, env: RestoreEnv)
    requires !AtEnd(s, pos) && ReadFrameHeader(s, pos).Ok?
    requires var (h, next) := ReadFrameHeader(s, pos).value;
      env.makeParentsOk(Destination(env, h.path)) && env.createFileOk(Destination(env, h.path)) && next + h.size > |s|
    ensures RestoreFrames(s, pos, hash, env).error == Some(UnexpectedEof)
  {
  }

  /** A path that is present but not UTF-8 aborts the run with `InvalidData`, before any file is touched. */
  lemma NonUtf8PathIsInvalidData(s: seq<Byte>, pos: nat, hash: seq<Byte> -> Digest, env: RestoreEnv)
    requires !AtEnd(s, pos)
    requires pos + 2 + FromLE(s[pos..pos + 2]) <= |s|
    requires !Utf8.Valid(s[pos + 2..pos + 2 + FromLE(s[pos..pos + 2])])
    ensures RestoreFrames(s, pos, hash, env) == LoopResult([], Some(InvalidData))
  {
    ReadFrameHeaderSpec(s, pos);
  }

  /** The loop ends cleanly with nothing left to do exactly when fewer than two bytes remain. */
  lemma CleanEnd(s: seq<Byte>, pos: nat, hash: seq<Byte> -> Digest, env: RestoreEnv)
    ensures RestoreFrames(s, pos, hash, env) == LoopResult([], None) <==> AtEnd(s, pos)
  {
  }

  /** `i64::MAX + 1`. */
  const I64Limit: nat := 0x8000_0000_0000_0000

  /** `size as i64`: the two's-complement reading of a `u64`. */
  function AsI64(size: U64): (r: int)
    ensures -(I64Limit as int) <= r < I64Limit
    ensures r % U64Limit == size % U64Limit
  {
    if size < I64Limit then size else size - U64Limit
  }

  /**
   * The skip as `restore_backup` writes it: when `size > 0`,
   * `seek(SeekFrom::Current(size as i64))` with its error ignored. A seek
   * to a negative offset, or beyond what `i64` holds, fails and leaves the
   * reader where it was.
   */
  function SkipAsWritten(pos: nat, size: U64): (r: nat)
    ensures r == pos || r == pos + AsI64(size)
  {
    if size == 0 then pos
    else
      var target := pos + AsI64(size);
      if target < 0 || target >= I64Limit then pos else target
  }

  /** Below `2^63`, and for targets an `i64` holds, the written skip is the intended one. */
  lemma SkipAsWrittenAgrees(pos: nat, size: U64)
    requires size < I64Limit && pos + size < I64Limit
    ensures SkipAsWritten(pos, size) == Skip(pos, size)
  {
  }

  /** A declared size of `2^64 - k` moves the reader `k` bytes back instead of forward. */
  lemma SkipAsWrittenRewinds(pos: nat, k: nat)
    requires 0 < k <= pos && k <= I64Limit && pos < I64Limit
    ensures SkipAsWritten(pos, U64Limit - k) == pos - k
    ensures Skip(pos, U64Limit - k) > pos
  {
  }

  /**
   * The rewind lands exactly on the frame's own start when the declared
   * size is `2^64` minus the header's length: a frame whose file cannot be
   * created is then read again, fails again, and the loop as written never
   * ends. The loop as modelled skips forward instead.
   */
  lemma RewindRereadsFrame(s: seq<Byte>, pos: nat, hash: seq<Byte> -> Digest, env: RestoreEnv)
    requires !AtEnd(s, pos) && ReadFrameHeader(s, pos).Ok?
    requires |s| < I64Limit
    requires var (h, next) := ReadFrameHeader(s, pos).value;
      h.size == U64Limit - (next - pos) && !env.createFileOk(Destination(env, h.path))
    ensures var (h, next) := ReadFrameHeader(s, pos).value;
      && SkipAsWritten(next, h.size) == pos
      && RestoreFrames(s, pos, hash, env) == LoopResult([Failed(h.path, h.size)], None)
  {
    var (h, next) := ReadFrameHeader(s, pos).value;
    ReadFrameHeaderSpec(s, pos);
    Pow256Values();
    assert |h.path| <= MaxPathLength;
    SkipAsWrittenRewinds(next, next - pos);
  }
}
