/**
 * `backup_run` of `backup.c`: the option and source/destination checks,
 * then either the directory mirror (`run_directory_backup`) or the
 * compressed archive made by a `tar` child (`run_compressed_backup`).
 */
module BackupRun {
  import opened Wrappers
  import opened Posix
  import opened FsCopy

  /** `BackupOptions`; a `None` string is `NULL`. */
  datatype BackupOptions = BackupOptions(
    source: Option<string>,
    destination: Option<string>,
    backupName: Option<string>,
    verbose: bool,
    compress: bool)

  /**
   * How the `tar` child went: `fork` failed, `waitpid` failed, or the
   * status word `waitpid` stored. An `exec` failure is the child's
   * `_exit(127)`.
   */
  datatype TarOutcome = ForkFailed | WaitFailed | Waited(status: nat)

  /** What a run did: the filesystem after it, the `tar` command line it ran if any, and its return code. */
  datatype RunResult = RunResult(fs: FileSystem, tarArgs: Option<seq<string>>, rc: int)

  /** The status word of a child that called `exit(code)`, as Linux stores it. */
  function ExitedWith(code: nat): nat
    requires code < 256
  {
    code * 256
  }

  /** The status word of a child killed by signal `sig`, with or without a core dump. */
  function KilledBy(sig: nat, core: bool): nat
    requires 1 <= sig < 127
  {
    sig + if core then 128 else 0
  }

  /** `WIFEXITED(status) && WEXITSTATUS(status) == 0`, with the Linux encoding of the status word. */
  predicate ExitedZero(status: nat)
  {
    status % 128 == 0 && (status / 256) % 256 == 0
  }

  /** The success test holds for exactly one kind of child: one that exited with status 0. */
  lemma ExitedZeroExactly(code: nat, sig: nat, core: bool)
    requires code < 256 && 1 <= sig < 127
    ensures ExitedZero(ExitedWith(code)) <==> code == 0
    ensures !ExitedZero(KilledBy(sig, core))
  {
    assert ExitedWith(code) / 256 == code;
  }

  /** `"%s/%s"`: the directory mode's target. */
  function BackupPath(destination: string, name: string): (p: string)
    ensures |p| == |destination| + 1 + |name|
    ensures p[..|destination|] == destination && p[|destination|] == '/' && p[|destination| + 1..] == name
  {
    destination + "/" + name
  }

  /** `"%s/%s.tar.gz"`: the archive mode's target. */
  function ArchivePath(destination: string, name: string): (p: string)
    ensures |p| == |destination| + 1 + |name| + 7
    ensures p[..|destination| + 1 + |name|] == BackupPath(destination, name)
  {
    destination + "/" + name + ".tar.gz"
  }

  /** `tar -czf <archive> -C <source> .`, as passed to `execlp`. */
  function TarArgs(archive: string, source: string): (argv: seq<string>)
    ensures |argv| == 6 && argv[0] == "tar" && argv[2] == archive && argv[3] == "-C" && argv[4] == source && argv[5] == "."
  {
    ["tar", "-czf", archive, "-C", source, "."]
  }

  /** `run_directory_backup`: ensure `destination/name`, then mirror `source` into it. */
  function RunDirectory(fs: FileSystem, source: string, destination: string, name: string, io: Io): (r: RunResult)
    ensures r.tarArgs.None? && (r.rc == 0 || r.rc == -1)
  {
    var target := BackupPath(destination, name);
    if |target| >= PathMax then RunResult(fs, None, -1)
    else
      var (fs1, rc1) := EnsureDirectory(fs, target, io);
      if rc1 != 0 then RunResult(fs1, None, -1)
      else
        var (fs2, rc2) := CopyTree(fs1, source, target, io);
        RunResult(fs2, None, if rc2 != 0 then -1 else 0)
  }

  /**
   * `run_compressed_backup`: run `tar` on `destination/name.tar.gz`. What
   * `tar` writes is not modelled; the filesystem is passed through.
   */
  function RunCompressed(fs: FileSystem, source: string, destination: string, name: string, tar: seq<string> -> TarOutcome): (r: RunResult)
    ensures r.fs == fs && (r.rc == 0 || r.rc == -1)
    ensures r.rc == 0 ==> r.tarArgs == Some(TarArgs(ArchivePath(destination, name), source))
  {
    var archive := ArchivePath(destination, name);
    if |archive| >= PathMax then RunResult(fs, None, -1)
    else
      var argv := TarArgs(archive, source);
      match tar(argv)
      case ForkFailed => RunResult(fs, Some(argv), -1)
      case WaitFailed => RunResult(fs, Some(argv), -1)
      case Waited(status) => RunResult(fs, Some(argv), if ExitedZero(status) then 0 else -1)
  }

  /** `backup_run(opts)`; `None` for `opts` is `NULL`. */
  function Run(opts: Option<BackupOptions>, fs: FileSystem, io: Io, tar: seq<string> -> TarOutcome): (r: RunResult)
    ensures r.rc == 0 || r.rc == -1
  {
    if opts.None? || opts.value.source.None? || opts.value.destination.None? || opts.value.backupName.None? then
      RunResult(fs, None, -1)
    else
      var o := opts.value;
      var source := o.source.value;
      var destination := o.destination.value;
      match Stat(fs, source)
      case Err(_) => RunResult(fs, None, -1)
      case Ok(sn) =>
        if !ModeIs(StMode(sn), IfDir) then RunResult(fs, None, -1)
        else
          match Stat(fs, destination)
          case Err(_) => RunResult(fs, None, -1)
          case Ok(dn) =>
            if !ModeIs(StMode(dn), IfDir) then RunResult(fs, None, -1)
            else if o.compress then RunCompressed(fs, source, destination, o.backupName.value, tar)
            else RunDirectory(fs, source, destination, o.backupName.value, io)
  }

  /** The checks a run passes before it does anything. */
  predicate Admissible(opts: Option<BackupOptions>, fs: FileSystem)
  {
    && opts.Some?
    && opts.value.source.Some? && opts.value.destination.Some? && opts.value.backupName.Some?
    && Stat(fs, opts.value.source.value).Ok? && Stat(fs, opts.value.source.value).value.Dir?
    && Stat(fs, opts.value.destination.value).Ok? && Stat(fs, opts.value.destination.value).value.Dir?
  }

  /**
   * Missing options, a source or destination that `stat` cannot find, or
   * one that is not a directory (links followed): -1 before any change and
   * before `tar` is started.
   */
  lemma ChecksComeFirst(opts: Option<BackupOptions>, fs: FileSystem, io: Io, tar: seq<string> -> TarOutcome)
    ensures !Admissible(opts, fs) ==> Run(opts, fs, io, tar) == RunResult(fs, None, -1)
  {
    if opts.Some? && opts.value.source.Some? && opts.value.destination.Some? {
      var s := Stat(fs, opts.value.source.value);
      var d := Stat(fs, opts.value.destination.value);
      if s.Ok? {
        ModeKinds(s.value);
      }
      if d.Ok? {
        ModeKinds(d.value);
      }
    }
  }

  /** Past the checks, the compress flag alone picks the mode. */
  lemma ModeSelection(opts: Option<BackupOptions>, fs: FileSystem, io: Io, tar: seq<string> -> TarOutcome)
    requires Admissible(opts, fs)
    ensures var o := opts.value;
      Run(opts, fs, io, tar) ==
        if o.compress then RunCompressed(fs, o.source.value, o.destination.value, o.backupName.value, tar)
        else RunDirectory(fs, o.source.value, o.destination.value, o.backupName.value, io)
  {
    ModeKinds(Stat(fs, opts.value.source.value).value);
    ModeKinds(Stat(fs, opts.value.destination.value).value);
  }

  /**
   * The archive run succeeds exactly when `tar` was started on
   * `destination/name.tar.gz` and exited with status 0; an `exec` failure
   * (status 127), a signal, or a failed `fork` or `waitpid` is -1.
   */
  lemma ArchiveOutcome(fs: FileSystem, source: string, destination: string, name: string, tar: seq<string> -> TarOutcome)
    ensures var archive := ArchivePath(destination, name);
      RunCompressed(fs, source, destination, name, tar).rc == 0 <==>
        |archive| < PathMax && tar(TarArgs(archive, source)).Waited? && ExitedZero(tar(TarArgs(archive, source)).status)
    ensures |ArchivePath(destination, name)| < PathMax && tar(TarArgs(ArchivePath(destination, name), source)) == Waited(ExitedWith(127))
      ==> RunCompressed(fs, source, destination, name, tar).rc == -1
  {
    ExitedZeroExactly(127, 1, false);
  }

  /** A target path that does not fit in `PATH_MAX` is -1 with nothing changed. */
  lemma TargetTooLong(fs: FileSystem, source: string, destination: string, name: string, io: Io)
    requires |destination| + 1 + |name| >= PathMax
    ensures RunDirectory(fs, source, destination, name, io) == RunResult(fs, None, -1)
  {
  }

  /** An existing directory at the target is reused as it is: the run is the tree copy into it. */
  lemma ExistingTargetReused(fs: FileSystem, source: string, destination: string, name: string, io: Io)
    requires |BackupPath(destination, name)| < PathMax
    requires Stat(fs, BackupPath(destination, name)).Ok? && Stat(fs, BackupPath(destination, name)).value.Dir?
    ensures var c := CopyTree(fs, source, BackupPath(destination, name), io);
      RunDirectory(fs, source, destination, name, io) == RunResult(c.0, None, c.1)
  {
    ModeKinds(Stat(fs, BackupPath(destination, name)).value);
  }

  /**
   * A target that does not exist yet is made with `mkdir(target, 0755)`:
   * when that fails the run is -1 with nothing changed, and otherwise the
   * run is the tree copy into the new, empty directory.
   */
  lemma NewTargetCreated(fs: FileSystem, source: string, destination: string, name: string, io: Io)
    requires |BackupPath(destination, name)| < PathMax
    requires Stat(fs, BackupPath(destination, name)).Err?
    ensures var target := BackupPath(destination, name);
      var made := Mkdir(fs, target, DirMode, io.mkdirDenied(target));
      && (made.Err? ==> RunDirectory(fs, source, destination, name, io) == RunResult(fs, None, -1))
      && (made.Ok? ==>
            && Stat(made.value, target) == Ok(Dir(DirMode, []))
            && var c := CopyTree(made.value, source, target, io);
               RunDirectory(fs, source, destination, name, io) == RunResult(c.0, None, c.1))
  {
    var target := BackupPath(destination, name);
    if Mkdir(fs, target, DirMode, io.mkdirDenied(target)).Ok? {
      StatAfterMkdir(fs, target, DirMode, io.mkdirDenied(target));
    }
  }

  /** An existing non-directory at the target is -1 with nothing changed. */
  lemma TargetConflict(fs: FileSystem, source: string, destination: string, name: string, io: Io)
    requires |BackupPath(destination, name)| < PathMax
    requires Stat(fs, BackupPath(destination, name)).Ok? && !Stat(fs, BackupPath(destination, name)).value.Dir?
    ensures RunDirectory(fs, source, destination, name, io) == RunResult(fs, None, -1)
  {
    EnsureDirectoryConflict(fs, BackupPath(destination, name), io);
  }

  /** A run, whatever its outcome, only adds nodes and fills files, and keeps the filesystem well-formed. */
  lemma RunExtends(opts: Option<BackupOptions>, fs: FileSystem, io: Io, tar: seq<string> -> TarOutcome)
    ensures Extends(fs, Run(opts, fs, io, tar).fs)
    ensures Wf(fs) ==> Wf(Run(opts, fs, io, tar).fs)
  {
    ExtendsRefl(fs);
    ChecksComeFirst(opts, fs, io, tar);
    if Admissible(opts, fs) {
      ModeSelection(opts, fs, io, tar);
      var o := opts.value;
      if !o.compress {
        var target := BackupPath(o.destination.value, o.backupName.value);
        if |target| < PathMax {
          var (fs1, rc1) := EnsureDirectory(fs, target, io);
          EnsureDirectoryExtends(fs, target, io);
          if rc1 == 0 {
            CopyTreeExtends(fs1, o.source.value, target, io);
            ExtendsTrans(fs, fs1, CopyTree(fs1, o.source.value, target, io).0);
          }
        }
      }
    }
  }
}
