/**
 * The directory-mirror engine of `fs.c`: `copy_file` (open, `fstat`, create
 * with the permission bits, then the read loop with its inner short-write
 * loop), `fs_ensure_directory`, and `copy_tree_recursive` with its fail-fast
 * walk over one directory listing.
 *
 * The system calls act on the `Posix` filesystem; what the filesystem alone
 * does not decide (permission refusals, I/O errors, how many bytes one
 * `read` or `write` moves) comes from an `Io` oracle.
 */
module FsCopy {
  import opened Bytes
  import opened Wrappers
  import opened Posix

  /** `char buf[64 * 1024]`: the most one `read` asks for. */
  const BufferSize: nat := 65536

  /** `mkdir(path, 0755)`. */
  const DirMode: nat := 0x1ED

  /** `mode & 0777` is `mode % 0x200`: the nine permission bits `copy_file` keeps. */
  const PermissionBits: nat := 0x200

  /** What one `read` returns: a byte count (0 is end of file) or -1. */
  datatype ReadResult = Got(count: nat) | ReadFailed

  type Positive = n: nat | n >= 1 witness 1

  /**
   * What one `write` returns: at least one byte written, or -1. A `write`
   * of a non-empty buffer that returns 0 would leave the inner loop
   * spinning forever; such an oracle is excluded by the type.
   */
  datatype WriteResult = Wrote(count: Positive) | WriteFailed

  /**
   * The oracle. `read(src, offset)` and `write(dst, offset, length)` are
   * the results of the call made at that file offset; the counts are
   * clamped to what the call can move. The remaining fields say whether a
   * call on a path is refused by the system.
   */
  datatype Io = Io(
    openReadDenied: string -> bool,
    fstatFails: string -> bool,
    openWriteDenied: string -> bool,
    read: (string, nat) -> ReadResult,
    write: (string, nat, nat) -> WriteResult,
    mkdirDenied: string -> bool,
    opendirDenied: string -> bool)

  /**
   * The inner `while (to_write > 0)` loop for the chunk `[from, end)` of the
   * destination: the offset reached and whether every `write` succeeded.
   */
  function WriteAll(io: Io, dst: string, from: nat, end: nat): (r: (nat, bool))
    requires from <= end
    ensures from <= r.0 <= end
    ensures r.1 ==> r.0 == end
    decreases end - from
  {
    if from == end then (end, true)
    else
      match io.write(dst, from, end - from)
      case WriteFailed => (from, false)
      case Wrote(w) => WriteAll(io, dst, from + Min(w, end - from), end)
  }

  /**
   * The outer `for (;;)` loop from offset `pos` of the source bytes `data`:
   * how many bytes reach the destination, and whether the loop ended at a
   * `read` of 0 rather than at an error.
   */
  function CopyLoop(io: Io, src: string, dst: string, data: seq<Byte>, pos: nat): (r: (nat, bool))
    requires pos <= |data|
    ensures pos <= r.0 <= |data|
    decreases |data| - pos
  {
    match io.read(src, pos)
    case ReadFailed => (pos, false)
    case Got(c) =>
      var n := Min(c, Min(BufferSize, |data| - pos));
      if n == 0 then (pos, true)
      else
        var w := WriteAll(io, dst, pos, pos + n);
        if !w.1 then (w.0, false) else CopyLoop(io, src, dst, data, pos + n)
  }

  /**
   * The read loop and the short-write loop of `copy_file` as written: `out`
   * is what the destination receives, always a prefix of the source bytes,
   * and `ok` is false exactly when a `read` or a `write` failed.
   */
  method CopyData(io: Io, src: string, dst: string, data: seq<Byte>) returns (out: seq<Byte>, ok: bool)
    ensures |out| <= |data| && out == data[..|out|]
    ensures |out| == CopyLoop(io, src, dst, data, 0).0 && ok == CopyLoop(io, src, dst, data, 0).1
  {
    ghost var goal := CopyLoop(io, src, dst, data, 0);
    out := [];
    var pos: nat := 0;
    while true
      invariant pos <= |data| && out == data[..pos]
      invariant CopyLoop(io, src, dst, data, pos) == goal
      decreases |data| - pos
    {
      var rd := io.read(src, pos);
      if rd.ReadFailed? {
        CopyLoopStops(io, src, dst, data, pos);
        return out, false;
      }
      var n := Min(rd.count, Min(BufferSize, |data| - pos));
      if n == 0 {
        CopyLoopStops(io, src, dst, data, pos);
        break;
      }
      var written;
      out, written := WriteChunk(io, dst, data, out, pos + n);
      if !written {
        CopyLoopWriteFails(io, src, dst, data, pos, n);
        return out, false;
      }
      CopyLoopStep(io, src, dst, data, pos, n);
      pos := pos + n;
    }
    ok := true;
  }

  /**
   * The inner short-write loop for the bytes `data[|out|..end]` just read,
   * `out` being what the destination already holds: the destination then
   * holds a longer prefix of `data`, up to `end` when `ok`.
   */
  method WriteChunk(io: Io, dst: string, data: seq<Byte>, out: seq<Byte>, end: nat) returns (out': seq<Byte>, ok: bool)
    requires |out| <= end <= |data| && out == data[..|out|]
    ensures |out| <= |out'| <= end && out' == data[..|out'|]
    ensures |out'| == WriteAll(io, dst, |out|, end).0 && ok == WriteAll(io, dst, |out|, end).1
  {
    out' := out;
    // the source's `p` is `|out'|`, and `to_write` is `end - |out'|`
    while |out'| < end
      invariant |out| <= |out'| <= end && out' == data[..|out'|]
      invariant WriteAll(io, dst, |out'|, end) == WriteAll(io, dst, |out|, end)
      decreases end - |out'|
    {
      var at := |out'|;
      var wr := io.write(dst, at, end - at);
      if wr.WriteFailed? {
        return out', false;
      }
      var k := Min(wr.count, end - at);
      WriteAllStep(io, dst, at, end);
      PrefixGrow(data, at, at + k);
      out' := out' + data[at..at + k];
    }
    ok := true;
  }

  lemma PrefixGrow(data: seq<Byte>, i: nat, j: nat)
    requires i <= j <= |data|
    ensures data[..i] + data[i..j] == data[..j]
  {
  }

  /** One `write` of the inner loop, and where the loop resumes. */
  lemma WriteAllStep(io: Io, dst: string, from: nat, end: nat)
    requires from < end && io.write(dst, from, end - from).Wrote?
    ensures WriteAll(io, dst, from, end) == WriteAll(io, dst, from + Min(io.write(dst, from, end - from).count, end - from), end)
  {
  }

  /** One chunk of `n` bytes that is read and written in full, and where the outer loop resumes. */
  lemma CopyLoopStep(io: Io, src: string, dst: string, data: seq<Byte>, pos: nat, n: nat)
    requires pos <= |data| && io.read(src, pos).Got?
    requires n == Min(io.read(src, pos).count, Min(BufferSize, |data| - pos))
    requires n > 0 && WriteAll(io, dst, pos, pos + n).1
    ensures CopyLoop(io, src, dst, data, pos) == CopyLoop(io, src, dst, data, pos + n)
  {
  }

  /** A failed `read`, or one of 0 bytes, ends the outer loop at `pos`. */
  lemma CopyLoopStops(io: Io, src: string, dst: string, data: seq<Byte>, pos: nat)
    requires pos <= |data|
    requires io.read(src, pos).ReadFailed? || Min(io.read(src, pos).count, Min(BufferSize, |data| - pos)) == 0
    ensures CopyLoop(io, src, dst, data, pos) == (pos, io.read(src, pos).Got?)
  {
  }

  /** A chunk whose writing fails ends the outer loop where the writing stopped. */
  lemma CopyLoopWriteFails(io: Io, src: string, dst: string, data: seq<Byte>, pos: nat, n: nat)
    requires pos <= |data| && io.read(src, pos).Got?
    requires n == Min(io.read(src, pos).count, Min(BufferSize, |data| - pos))
    requires n > 0 && !WriteAll(io, dst, pos, pos + n).1
    ensures CopyLoop(io, src, dst, data, pos) == (WriteAll(io, dst, pos, pos + n).0, false)
  {
  }

  /** Every `write` on `dst` succeeds. */
  ghost predicate WritesAll(io: Io, dst: string)
  {
    forall off, len :: io.write(dst, off, len).Wrote?
  }

  /** Every `read` of `src` succeeds and moves at least one byte until the end of `data`. */
  ghost predicate ReadsAll(io: Io, src: string, data: seq<Byte>)
  {
    forall off: nat :: off <= |data| ==> io.read(src, off).Got? && (off < |data| ==> io.read(src, off).count >= 1)
  }

  lemma {:induction false} WriteAllCompletes(io: Io, dst: string, from: nat, end: nat)
    requires from <= end && WritesAll(io, dst)
    ensures WriteAll(io, dst, from, end) == (end, true)
    decreases end - from
  {
    if from < end {
      var w := io.write(dst, from, end - from);
      assert w.Wrote?;
      WriteAllCompletes(io, dst, from + Min(w.count, end - from), end);
    }
  }

  /**
   * With reads and writes that never fail, the loop copies every byte,
   * however short each read and write is.
   */
  lemma {:induction false} HonestCopyLoop(io: Io, src: string, dst: string, data: seq<Byte>, pos: nat)
    requires pos <= |data| && ReadsAll(io, src, data) && WritesAll(io, dst)
    ensures CopyLoop(io, src, dst, data, pos) == (|data|, true)
    decreases |data| - pos
  {
    var rd := io.read(src, pos);
    assert rd.Got?;
    var n := Min(rd.count, Min(BufferSize, |data| - pos));
    if n > 0 {
      WriteAllCompletes(io, dst, pos, pos + n);
      HonestCopyLoop(io, src, dst, data, pos + n);
    }
  }

  /**
   * `copy_file(src, dst)`: open the source, `fstat` it, create or truncate
   * the destination with `st_mode & 0777`, then copy. The bytes read are
   * those of the source after the destination was opened, so copying a file
   * onto itself reads the truncated file. Whatever was written stays in the
   * destination when the copy fails. The source is a regular file, which
   * `copy_tree_recursive` has checked with `stat` just before.
   */
  function CopyFile(fs: FileSystem, src: string, dst: string, io: Io): (r: (FileSystem, int))
    requires Stat(fs, src).Ok? && Stat(fs, src).value.File?
    ensures r.1 == 0 || r.1 == -1
    ensures || OpenRead(fs, src, io.openReadDenied(src)).Err?
            || io.fstatFails(src)
            || OpenWrite(fs, dst, StMode(Stat(fs, src).value) % PermissionBits, io.openWriteDenied(dst)).Err?
      ==> r == (fs, -1)
  {
    match OpenRead(fs, src, io.openReadDenied(src))
    case Err(_) => (fs, -1)
    case Ok(sl) =>
      if io.fstatFails(src) then (fs, -1)
      else
        var mode := StMode(fs.nodes[sl]) % PermissionBits;
        match OpenWrite(fs, dst, mode, io.openWriteDenied(dst))
        case Err(_) => (fs, -1)
        case Ok((fs1, dl)) =>
          var data := fs1.nodes[sl].data;
          var copied := CopyLoop(io, src, dst, data, 0);
          var fs2 := fs1.(nodes := fs1.nodes[dl := File(fs1.nodes[dl].mode, data[..copied.0])]);
          (fs2, if copied.1 then 0 else -1)
  }

  /** `st_mode & 0777` of a regular file is its mode without set-user-ID, set-group-ID and sticky bits. */
  lemma CreationMode(m: nat, data: seq<Byte>)
    ensures StMode(File(m, data)) % PermissionBits == m % 512
  {
    var p := m % 0x1000;
    assert IfReg + p == 64 * 512 + p;
    assert p % 512 == m % 512;
  }

  /**
   * The effect of a successful open of the destination: at the location
   * `dst` leads to, a regular file holding a prefix of the source's bytes
   * (none when it is the source itself), with a new file's mode being the
   * source's permission bits and an existing file's mode kept; every other
   * location is unchanged, but for a new file's entry in its directory.
   * `rc` is 0 exactly when the loop ended at end of file.
   */
  lemma CopyFileEffect(fs: FileSystem, src: string, dst: string, io: Io)
    requires Stat(fs, src).Ok? && Stat(fs, src).value.File?
    requires OpenRead(fs, src, io.openReadDenied(src)).Ok? && !io.fstatFails(src)
    requires OpenWrite(fs, dst, StMode(Stat(fs, src).value) % PermissionBits, io.openWriteDenied(dst)).Ok?
    ensures var sl := Locate(fs, src, true).value;
      var dl := Locate(fs, dst, true).value;
      var r := CopyFile(fs, src, dst, io);
      var data := if dl == sl then [] else fs.nodes[sl].data;
      var copied := CopyLoop(io, src, dst, data, 0);
      && r.0.nodes.Keys == fs.nodes.Keys + {dl}
      && r.0.nodes[dl].File?
      && r.0.nodes[dl].data == data[..copied.0]
      && (dl !in fs.nodes ==> r.0.nodes[dl].mode == Stat(fs, src).value.mode % 512)
      && (dl in fs.nodes ==> r.0.nodes[dl].mode == fs.nodes[dl].mode)
      && (forall k :: k in fs.nodes && k != dl && k != Parent(dl) ==> r.0.nodes[k] == fs.nodes[k])
      && (r.1 == 0 <==> copied.1)
  {
    var sl := OpenRead(fs, src, io.openReadDenied(src)).value;
    var node := fs.nodes[sl];
    CreationMode(node.mode, node.data);
    var (fs1, dl) := OpenWrite(fs, dst, StMode(node) % PermissionBits, io.openWriteDenied(dst)).value;
    assert sl != dl ==> sl != Parent(dl) || dl in fs.nodes;
  }

  /**
   * Content and permission fidelity: when the destination is not the source
   * and no read or write fails, `copy_file` succeeds and the destination
   * holds exactly the source's bytes.
   */
  lemma CopyFileHonest(fs: FileSystem, src: string, dst: string, io: Io)
    requires Stat(fs, src).Ok? && Stat(fs, src).value.File?
    requires OpenRead(fs, src, io.openReadDenied(src)).Ok? && !io.fstatFails(src)
    requires OpenWrite(fs, dst, StMode(Stat(fs, src).value) % PermissionBits, io.openWriteDenied(dst)).Ok?
    requires Locate(fs, dst, true).value != Locate(fs, src, true).value
    requires ReadsAll(io, src, Stat(fs, src).value.data) && WritesAll(io, dst)
    ensures CopyFile(fs, src, dst, io).1 == 0
    ensures CopyFile(fs, src, dst, io).0.nodes[Locate(fs, dst, true).value].data == Stat(fs, src).value.data
  {
    var data := Stat(fs, src).value.data;
    CopyFileEffect(fs, src, dst, io);
    HonestCopyLoop(io, src, dst, data, 0);
    assert data[..|data|] == data;
  }

  /** Copying a file onto itself truncates it: the read after the truncating open sees no bytes. */
  lemma CopyOntoItself(fs: FileSystem, path: string, io: Io)
    requires Stat(fs, path).Ok? && Stat(fs, path).value.File?
    requires OpenRead(fs, path, io.openReadDenied(path)).Ok? && !io.fstatFails(path)
    requires OpenWrite(fs, path, StMode(Stat(fs, path).value) % PermissionBits, io.openWriteDenied(path)).Ok?
    ensures CopyFile(fs, path, path, io).0.nodes[Locate(fs, path, true).value].data == []
  {
    CopyFileEffect(fs, path, path, io);
  }

  /** `copy_file` keeps every node and well-formedness. */
  lemma CopyFileExtends(fs: FileSystem, src: string, dst: string, io: Io)
    requires Stat(fs, src).Ok? && Stat(fs, src).value.File?
    ensures Extends(fs, CopyFile(fs, src, dst, io).0)
    ensures Wf(fs) ==> Wf(CopyFile(fs, src, dst, io).0)
  {
    ExtendsRefl(fs);
    if OpenRead(fs, src, io.openReadDenied(src)).Ok? && !io.fstatFails(src) {
      var sl := OpenRead(fs, src, io.openReadDenied(src)).value;
      var mode := StMode(fs.nodes[sl]) % PermissionBits;
      var w := OpenWrite(fs, dst, mode, io.openWriteDenied(dst));
      if w.Ok? {
        var (fs1, dl) := w.value;
        OpenWriteExtends(fs, dst, mode, io.openWriteDenied(dst));
        var data := fs1.nodes[sl].data;
        var copied := CopyLoop(io, src, dst, data, 0);
        SetFileExtends(fs1, dl, data[..copied.0]);
        ExtendsTrans(fs, fs1, CopyFile(fs, src, dst, io).0);
      }
    }
  }

  /**
   * `fs_ensure_directory(path)`: an existing directory (links followed) is
   * 0, anything else that `stat` finds is -1; when `stat` fails,
   * `mkdir(path, 0755)` decides.
   */
  function EnsureDirectory(fs: FileSystem, path: string, io: Io): (r: (FileSystem, int))
    ensures r.1 == 0 || r.1 == -1
    ensures r.1 == -1 ==> r.0 == fs
    ensures r.1 == 0 <==> Stat(r.0, path).Ok? && Stat(r.0, path).value.Dir?
  {
    match Stat(fs, path)
    case Ok(n) =>
      ModeKinds(n);
      (fs, if ModeIs(StMode(n), IfDir) then 0 else -1)
    case Err(_) =>
      match Mkdir(fs, path, DirMode, io.mkdirDenied(path))
      case Err(_) => (fs, -1)
      case Ok(fs2) =>
        StatAfterMkdir(fs, path, DirMode, io.mkdirDenied(path));
        (fs2, 0)
  }

  /** Ensuring a directory twice is the same as once; the second call changes nothing. */
  lemma EnsureDirectoryIdempotent(fs: FileSystem, path: string, io: Io)
    requires EnsureDirectory(fs, path, io).1 == 0
    ensures var fs1 := EnsureDirectory(fs, path, io).0;
      EnsureDirectory(fs1, path, io) == (fs1, 0)
  {
  }

  /**
   * What `fs_ensure_directory` may change: nothing when the path exists;
   * otherwise one new, empty directory with mode 0755 at the location the
   * path names, inside a directory that already existed. Parents are never
   * created.
   */
  lemma EnsureDirectoryCreatesOne(fs: FileSystem, path: string, io: Io)
    ensures var r := EnsureDirectory(fs, path, io);
      Stat(fs, path).Ok? ==> r.0 == fs
    ensures var r := EnsureDirectory(fs, path, io);
      r.0 != fs ==>
        && Locate(fs, path, false).Ok?
        && var l := Locate(fs, path, false).value;
        && l !in fs.nodes && |l| > 0 && IsDirAt(fs, Parent(l))
        && r.0.nodes.Keys == fs.nodes.Keys + {l}
        && r.0.nodes[l] == Dir(DirMode, [])
  {
  }

  /** An existing non-directory, or a link to one, is -1 and nothing changes. */
  lemma EnsureDirectoryConflict(fs: FileSystem, path: string, io: Io)
    requires Stat(fs, path).Ok? && !Stat(fs, path).value.Dir?
    ensures EnsureDirectory(fs, path, io) == (fs, -1)
  {
  }

  lemma EnsureDirectoryExtends(fs: FileSystem, path: string, io: Io)
    ensures Extends(fs, EnsureDirectory(fs, path, io).0)
    ensures Wf(fs) ==> Wf(EnsureDirectory(fs, path, io).0)
  {
    ExtendsRefl(fs);
    if Stat(fs, path).Err? && Mkdir(fs, path, DirMode, io.mkdirDenied(path)).Ok? {
      MkdirExtends(fs, path, DirMode, io.mkdirDenied(path));
    }
  }

  /**
   * The measure of the walk: how much longer a path can grow before it no
   * longer fits in `PATH_MAX`. Every recursion is on a longer path that
   * still fits, so even a destination inside the source, or a link back up
   * the tree, ends the walk.
   */
  function Room(path: string): nat
  {
    if |path| < PathMax then PathMax - |path| else 0
  }

  /** `snprintf(buf, PATH_MAX, "%s/%s", dir, name)`; the path only fits when shorter than `PATH_MAX`, leaving room for the NUL. */
  function ChildPath(dir: string, name: Name): (p: string)
    ensures |p| == |dir| + 1 + |name| && p[..|dir|] == dir
    ensures p[|dir|] == '/' && p[|dir| + 1..] == name
  {
    dir + "/" + name
  }

  /** `copy_tree_recursive(src, dst)`: list `src`, then walk its entries, stopping at the first failure. */
  function CopyTree(fs: FileSystem, src: string, dst: string, io: Io): (r: (FileSystem, int))
    ensures r.1 == 0 || r.1 == -1
    decreases Room(src), 1, 0
  {
    match ReadDir(fs, src, io.opendirDenied(src))
    case Err(_) => (fs, -1)
    case Ok(names) => CopyEntries(fs, src, dst, names, io)
  }

  /**
   * The `readdir` loop over `names`, the listing taken when `src` was
   * opened: `.` and `..` are passed over, each other entry is classified by
   * `stat` of `src/name` and copied; links are followed.
   */
  function CopyEntries(fs: FileSystem, src: string, dst: string, names: seq<Name>, io: Io): (r: (FileSystem, int))
    ensures r.1 == 0 || r.1 == -1
    decreases Room(src), 0, |names|
  {
    if |names| == 0 then (fs, 0)
    else
      var name := names[0];
      if name == "." || name == ".." then CopyEntries(fs, src, dst, names[1..], io)
      else
        var sp := ChildPath(src, name);
        var dp := ChildPath(dst, name);
        if |sp| >= PathMax || |dp| >= PathMax then (fs, -1)
        else
          match Stat(fs, sp)
          case Err(_) => (fs, -1)
          case Ok(n) =>
            var mode := StMode(n);
            if ModeIs(mode, IfDir) then
              var (fs1, rc1) := EnsureDirectory(fs, dp, io);
              if rc1 != 0 then (fs1, -1)
              else
                var (fs2, rc2) := CopyTree(fs1, sp, dp, io);
                if rc2 != 0 then (fs2, -1) else CopyEntries(fs2, src, dst, names[1..], io)
            else if ModeIs(mode, IfReg) then
              ModeKinds(n);
              var (fs1, rc1) := CopyFile(fs, sp, dp, io);
              if rc1 != 0 then (fs1, -1) else CopyEntries(fs1, src, dst, names[1..], io)
            else
              // links (which `stat` never reports) and special files are skipped
              CopyEntries(fs, src, dst, names[1..], io)
  }

  /**
   * Fail-fast: walking `a + b` is walking `a`, then `b` from where `a` left
   * the filesystem, unless `a` already failed, in which case nothing of `b`
   * is touched.
   */
  lemma {:induction false} CopyEntriesAppend(fs: FileSystem, src: string, dst: string, a: seq<Name>, b: seq<Name>, io: Io)
    ensures var ra := CopyEntries(fs, src, dst, a, io);
      CopyEntries(fs, src, dst, a + b, io) == if ra.1 != 0 then ra else CopyEntries(ra.0, src, dst, b, io)
    decreases |a|
  {
    if |a| == 0 {
      assert a + b == b;
    } else {
      assert (a + b)[0] == a[0] && (a + b)[1..] == a[1..] + b;
      var name := a[0];
      var sp := ChildPath(src, name);
      var dp := ChildPath(dst, name);
      if name == "." || name == ".." {
        CopyEntriesAppend(fs, src, dst, a[1..], b, io);
      } else if |sp| < PathMax && |dp| < PathMax && Stat(fs, sp).Ok? {
        var n := Stat(fs, sp).value;
        ModeKinds(n);
        if n.Dir? {
          var (fs1, rc1) := EnsureDirectory(fs, dp, io);
          if rc1 == 0 {
            var (fs2, rc2) := CopyTree(fs1, sp, dp, io);
            if rc2 == 0 {
              CopyEntriesAppend(fs2, src, dst, a[1..], b, io);
            }
          }
        } else if n.File? {
          var (fs1, rc1) := CopyFile(fs, sp, dp, io);
          if rc1 == 0 {
            CopyEntriesAppend(fs1, src, dst, a[1..], b, io);
          }
        } else {
          CopyEntriesAppend(fs, src, dst, a[1..], b, io);
        }
      }
    }
  }

  /** `.` and `..` change nothing and fail nothing. */
  lemma DotsSkipped(fs: FileSystem, src: string, dst: string, names: seq<Name>, io: Io)
    ensures CopyEntries(fs, src, dst, [".", ".."] + names, io) == CopyEntries(fs, src, dst, names, io)
  {
    var all := [".", ".."] + names;
    assert all[0] == "." && all[1..][0] == ".." && all[1..][1..] == names;
  }

  /** An entry whose source or destination path does not fit in `PATH_MAX` stops the walk with -1, before `stat`. */
  lemma PathTooLongFails(fs: FileSystem, src: string, dst: string, name: Name, rest: seq<Name>, io: Io)
    requires name != "." && name != ".."
    requires |src| + 1 + |name| >= PathMax || |dst| + 1 + |name| >= PathMax
    ensures CopyEntries(fs, src, dst, [name] + rest, io) == (fs, -1)
  {
    assert ([name] + rest)[0] == name;
  }

  /** An entry `stat` cannot resolve (a dangling link, a link loop) stops the walk with -1, nothing changed. */
  lemma UnresolvedEntryFails(fs: FileSystem, src: string, dst: string, name: Name, rest: seq<Name>, io: Io)
    requires name != "." && name != ".."
    requires Stat(fs, ChildPath(src, name)).Err?
    ensures CopyEntries(fs, src, dst, [name] + rest, io) == (fs, -1)
  {
    assert ([name] + rest)[0] == name;
  }

  /** A special file (FIFO, socket, device) is passed over without error and without change. */
  lemma SpecialFileSkipped(fs: FileSystem, src: string, dst: string, name: Name, rest: seq<Name>, io: Io)
    requires name != "." && name != ".."
    requires |ChildPath(src, name)| < PathMax && |ChildPath(dst, name)| < PathMax
    requires Stat(fs, ChildPath(src, name)).Ok? && Stat(fs, ChildPath(src, name)).value.Other?
    ensures CopyEntries(fs, src, dst, [name] + rest, io) == CopyEntries(fs, src, dst, rest, io)
  {
    assert ([name] + rest)[0] == name && ([name] + rest)[1..] == rest;
    ModeKinds(Stat(fs, ChildPath(src, name)).value);
  }

  /**
   * A regular file, or a link `stat` resolves to one, is copied with
   * `copy_file` to `dst/name`; the walk goes on only if that succeeded.
   */
  lemma RegularFileCopied(fs: FileSystem, src: string, dst: string, name: Name, rest: seq<Name>, io: Io)
    requires name != "." && name != ".."
    requires |ChildPath(src, name)| < PathMax && |ChildPath(dst, name)| < PathMax
    requires Stat(fs, ChildPath(src, name)).Ok? && Stat(fs, ChildPath(src, name)).value.File?
    ensures var c := CopyFile(fs, ChildPath(src, name), ChildPath(dst, name), io);
      CopyEntries(fs, src, dst, [name] + rest, io) == if c.1 != 0 then (c.0, -1) else CopyEntries(c.0, src, dst, rest, io)
  {
    assert ([name] + rest)[0] == name && ([name] + rest)[1..] == rest;
    ModeKinds(Stat(fs, ChildPath(src, name)).value);
  }

  /**
   * A directory, or a link `stat` resolves to one, is ensured at
   * `dst/name` and copied into recursively before the walk goes on.
   */
  lemma DirectoryRecursed(fs: FileSystem, src: string, dst: string, name: Name, rest: seq<Name>, io: Io)
    requires name != "." && name != ".."
    requires |ChildPath(src, name)| < PathMax && |ChildPath(dst, name)| < PathMax
    requires Stat(fs, ChildPath(src, name)).Ok? && Stat(fs, ChildPath(src, name)).value.Dir?
    ensures var sp := ChildPath(src, name);
      var dp := ChildPath(dst, name);
      var e := EnsureDirectory(fs, dp, io);
      var t := CopyTree(e.0, sp, dp, io);
      CopyEntries(fs, src, dst, [name] + rest, io) ==
        if e.1 != 0 then (e.0, -1)
        else if t.1 != 0 then (t.0, -1)
        else CopyEntries(t.0, src, dst, rest, io)
  {
    assert ([name] + rest)[0] == name && ([name] + rest)[1..] == rest;
    ModeKinds(Stat(fs, ChildPath(src, name)).value);
  }

  /** A directory that cannot be opened is -1, nothing changed. */
  lemma UnlistableFails(fs: FileSystem, src: string, dst: string, io: Io)
    requires ReadDir(fs, src, io.opendirDenied(src)).Err?
    ensures CopyTree(fs, src, dst, io) == (fs, -1)
  {
  }

  /** The walk only ever adds nodes and fills files: every node keeps its kind, and the filesystem stays well-formed. */
  lemma {:induction false} CopyTreeExtends(fs: FileSystem, src: string, dst: string, io: Io)
    ensures Extends(fs, CopyTree(fs, src, dst, io).0)
    ensures Wf(fs) ==> Wf(CopyTree(fs, src, dst, io).0)
    decreases Room(src), 1, 0
  {
    match ReadDir(fs, src, io.opendirDenied(src))
    case Err(_) => ExtendsRefl(fs);
    case Ok(names) => CopyEntriesExtends(fs, src, dst, names, io);
  }

  lemma {:induction false} CopyEntriesExtends(fs: FileSystem, src: string, dst: string, names: seq<Name>, io: Io)
    ensures Extends(fs, CopyEntries(fs, src, dst, names, io).0)
    ensures Wf(fs) ==> Wf(CopyEntries(fs, src, dst, names, io).0)
    decreases Room(src), 0, |names|
  {
    var r := CopyEntries(fs, src, dst, names, io);
    if |names| == 0 {
      ExtendsRefl(fs);
    } else {
      var name := names[0];
      var sp := ChildPath(src, name);
      var dp := ChildPath(dst, name);
      if name == "." || name == ".." {
        CopyEntriesExtends(fs, src, dst, names[1..], io);
      } else if |sp| >= PathMax || |dp| >= PathMax || Stat(fs, sp).Err? {
        ExtendsRefl(fs);
      } else {
        var n := Stat(fs, sp).value;
        ModeKinds(n);
        if n.Dir? {
          var (fs1, rc1) := EnsureDirectory(fs, dp, io);
          EnsureDirectoryExtends(fs, dp, io);
          if rc1 == 0 {
            var (fs2, rc2) := CopyTree(fs1, sp, dp, io);
            CopyTreeExtends(fs1, sp, dp, io);
            ExtendsTrans(fs, fs1, fs2);
            if rc2 == 0 {
              CopyEntriesExtends(fs2, src, dst, names[1..], io);
              ExtendsTrans(fs, fs2, r.0);
            }
          }
        } else if n.File? {
          var (fs1, rc1) := CopyFile(fs, sp, dp, io);
          CopyFileExtends(fs, sp, dp, io);
          if rc1 == 0 {
            CopyEntriesExtends(fs1, src, dst, names[1..], io);
            ExtendsTrans(fs, fs1, r.0);
          }
        } else {
          CopyEntriesExtends(fs, src, dst, names[1..], io);
        }
      }
    }
  }
}
