/**
 * What a successful `copy_tree_recursive` leaves behind: below the
 * destination, a directory for every directory and a regular file for
 * every regular file the source listed when the walk began, at the same
 * relative path, all the way down.
 */
module FsMirror {
  import opened Posix
  import opened FsCopy
  import BackupRun

  /** `name` is an entry, other than `.` and `..`, of the directory `stat(src)` finds. */
  ghost predicate Listed(fs: FileSystem, src: string, name: Name)
  {
    && Stat(fs, src).Ok? && Stat(fs, src).value.Dir?
    && name in Stat(fs, src).value.children
    && name != "." && name != ".."
  }

  /**
   * Every entry the directory `src` lists in `before` has its counterpart
   * below `dst` in `after`.
   */
  ghost predicate Mirrors(before: FileSystem, after: FileSystem, src: string, dst: string)
    decreases Room(src), 1
  {
    forall name :: Listed(before, src, name) ==> MirroredEntry(before, after, src, dst, name)
  }

  /**
   * The counterpart of `src/name` at `dst/name`: both paths fit in
   * `PATH_MAX`; a directory (links followed) has a directory that mirrors
   * it in turn; a regular file has a regular file.
   */
  ghost predicate MirroredEntry(before: FileSystem, after: FileSystem, src: string, dst: string, name: Name)
    decreases Room(src), 0
  {
    var sp := ChildPath(src, name);
    var dp := ChildPath(dst, name);
    && |sp| < PathMax && |dp| < PathMax
    && (Stat(before, sp).Ok? && Stat(before, sp).value.Dir? ==>
          && Stat(after, dp).Ok? && Stat(after, dp).value.Dir?
          && Mirrors(before, after, sp, dp))
    && (Stat(before, sp).Ok? && Stat(before, sp).value.File? ==>
          Stat(after, dp).Ok? && Stat(after, dp).value.File?)
  }

  /** A mirror survives when the source is read earlier and the destination later. */
  lemma {:induction false} MirrorsMono(b0: FileSystem, b1: FileSystem, a1: FileSystem, a2: FileSystem, src: string, dst: string)
    requires Extends(b0, b1) && Extends(a1, a2)
    requires Mirrors(b1, a1, src, dst)
    ensures Mirrors(b0, a2, src, dst)
    decreases Room(src), 1
  {
    forall name | Listed(b0, src, name) ensures MirroredEntry(b0, a2, src, dst, name) {
      StatStable(b0, b1, src);
      assert Listed(b1, src, name);
      EntryMono(b0, b1, a1, a2, src, dst, name);
    }
  }

  lemma {:induction false} EntryMono(b0: FileSystem, b1: FileSystem, a1: FileSystem, a2: FileSystem, src: string, dst: string, name: Name)
    requires Extends(b0, b1) && Extends(a1, a2)
    requires MirroredEntry(b1, a1, src, dst, name)
    ensures MirroredEntry(b0, a2, src, dst, name)
    decreases Room(src), 0
  {
    var sp := ChildPath(src, name);
    var dp := ChildPath(dst, name);
    if Stat(b0, sp).Ok? {
      StatStable(b0, b1, sp);
      var n := Stat(b0, sp).value;
      if n.Dir? || n.File? {
        StatStable(a1, a2, dp);
      }
      if n.Dir? {
        MirrorsMono(b0, b1, a1, a2, sp, dp);
      }
    }
  }

  /** A successful `copy_file` leaves a regular file where the destination path leads. */
  lemma CopyFileLands(fs: FileSystem, src: string, dst: string, io: Io)
    requires Stat(fs, src).Ok? && Stat(fs, src).value.File?
    requires CopyFile(fs, src, dst, io).1 == 0
    ensures Stat(CopyFile(fs, src, dst, io).0, dst).Ok? && Stat(CopyFile(fs, src, dst, io).0, dst).value.File?
  {
    var sl := OpenRead(fs, src, io.openReadDenied(src)).value;
    var mode := StMode(fs.nodes[sl]) % PermissionBits;
    var (fs1, dl) := OpenWrite(fs, dst, mode, io.openWriteDenied(dst)).value;
    var start := if IsAbsolute(dst) then [] else fs.cwd;
    var segs := Segments(dst);
    assert Walk(fs, start, segs, MaxSymlinkHops, true).value.0 == dl;
    if dl in fs.nodes {
      SetFileExtends(fs, dl, []);
      WalkStable(fs, fs1, start, segs, MaxSymlinkHops, true);
    } else {
      WalkAdd(fs, dl, File(mode, []), start, segs, MaxSymlinkHops, true);
    }
    var data := fs1.nodes[sl].data;
    var copied := CopyLoop(io, src, dst, data, 0);
    SetFileExtends(fs1, dl, data[..copied.0]);
    WalkStable(fs1, CopyFile(fs, src, dst, io).0, start, segs, MaxSymlinkHops, true);
  }

  /**
   * When `copy_tree_recursive(src, dst)` returns 0, the destination mirrors
   * the source as it was listed: every directory and regular file under
   * `src` (links followed) has a directory or regular file at the same
   * relative path under `dst`.
   */
  lemma {:induction false} CopyTreeMirrors(fs: FileSystem, src: string, dst: string, io: Io)
    requires CopyTree(fs, src, dst, io).1 == 0
    ensures Mirrors(fs, CopyTree(fs, src, dst, io).0, src, dst)
    decreases Room(src), 1, 0
  {
    var names := ReadDir(fs, src, io.opendirDenied(src)).value;
    var r := CopyTree(fs, src, dst, io).0;
    CopyEntriesMirrors(fs, src, dst, names, io);
    forall name | Listed(fs, src, name) ensures MirroredEntry(fs, r, src, dst, name) {
      assert name in names[2..];
    }
  }

  /** The entries walk: every listed name other than `.` and `..` has its counterpart. */
  lemma {:induction false} CopyEntriesMirrors(fs: FileSystem, src: string, dst: string, names: seq<Name>, io: Io)
    requires CopyEntries(fs, src, dst, names, io).1 == 0
    ensures forall name :: name in names && name != "." && name != ".." ==>
      MirroredEntry(fs, CopyEntries(fs, src, dst, names, io).0, src, dst, name)
    decreases Room(src), 0, |names|
  {
    if |names| > 0 {
      var name := names[0];
      var rest := names[1..];
      var r := CopyEntries(fs, src, dst, names, io).0;
      assert forall x :: x in names ==> x == name || x in rest;
      if name == "." || name == ".." {
        CopyEntriesMirrors(fs, src, dst, rest, io);
      } else {
        var sp := ChildPath(src, name);
        var dp := ChildPath(dst, name);
        var n := Stat(fs, sp).value;
        ModeKinds(n);
        if n.Dir? {
          var (fs1, _) := EnsureDirectory(fs, dp, io);
          var (fs2, _) := CopyTree(fs1, sp, dp, io);
          EnsureDirectoryExtends(fs, dp, io);
          CopyTreeExtends(fs1, sp, dp, io);
          CopyEntriesExtends(fs2, src, dst, rest, io);
          CopyTreeMirrors(fs1, sp, dp, io);
          StatStable(fs1, fs2, dp);
          StatStable(fs2, r, dp);
          ExtendsRefl(r);
          MirrorsMono(fs, fs1, fs2, r, sp, dp);
          assert MirroredEntry(fs, r, src, dst, name);
          CopyEntriesMirrors(fs2, src, dst, rest, io);
          ExtendsTrans(fs, fs1, fs2);
          forall x | x in rest && x != "." && x != ".." ensures MirroredEntry(fs, r, src, dst, x) {
            EntryMono(fs, fs2, r, r, src, dst, x);
          }
        } else if n.File? {
          var (fs1, _) := CopyFile(fs, sp, dp, io);
          CopyFileLands(fs, sp, dp, io);
          CopyFileExtends(fs, sp, dp, io);
          CopyEntriesExtends(fs1, src, dst, rest, io);
          StatStable(fs1, r, dp);
          assert MirroredEntry(fs, r, src, dst, name);
          CopyEntriesMirrors(fs1, src, dst, rest, io);
          ExtendsRefl(r);
          forall x | x in rest && x != "." && x != ".." ensures MirroredEntry(fs, r, src, dst, x) {
            EntryMono(fs, fs1, r, r, src, dst, x);
          }
        } else {
          CopyEntriesMirrors(fs, src, dst, rest, io);
        }
      }
    }
  }

  /**
   * A directory-mode run that returns 0 leaves `destination/name` a
   * directory that mirrors the source as it was listed when the run began.
   */
  lemma RunDirectoryMirrors(fs: FileSystem, source: string, destination: string, name: string, io: Io)
    requires BackupRun.RunDirectory(fs, source, destination, name, io).rc == 0
    ensures var r := BackupRun.RunDirectory(fs, source, destination, name, io);
      var target := BackupRun.BackupPath(destination, name);
      && Stat(r.fs, target).Ok? && Stat(r.fs, target).value.Dir?
      && Mirrors(fs, r.fs, source, target)
  {
    var target := BackupRun.BackupPath(destination, name);
    var (fs1, _) := EnsureDirectory(fs, target, io);
    var (fs2, _) := CopyTree(fs1, source, target, io);
    EnsureDirectoryExtends(fs, target, io);
    CopyTreeExtends(fs1, source, target, io);
    CopyTreeMirrors(fs1, source, target, io);
    StatStable(fs1, fs2, target);
    ExtendsRefl(fs2);
    MirrorsMono(fs, fs1, fs2, fs2, source, target);
  }
}
