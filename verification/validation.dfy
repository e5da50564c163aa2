/**
 * `validate_paths`: the source must be an existing directory, the backup
 * directory is created when missing, and after canonicalisation the backup
 * directory may be neither the source nor inside it. The filesystem is an
 * `Env` oracle.
 */
module Validation {
  import opened Wrappers
  import opened RustPath
  import opened Config

  /** What `exists()` and `is_dir()` (links followed) report for a path. */
  datatype PathKind = Missing | Directory | NotDirectory

  /**
   * The filesystem as `validate_paths` sees it: the kind of each path,
   * whether `create_dir_all` succeeds on it, and what `canonicalize`
   * returns once any creation has happened.
   */
  datatype Env = Env(
    kind: string -> PathKind,
    createDirAll: string -> bool,
    canonicalize: string -> Option<RPath>)

  datatype ValidatedPaths = ValidatedPaths(sourceRoot: RPath, backupDir: RPath)

  datatype ValidationError =
    | SourceMissing(path: string)
    | SourceNotDirectory(path: string)
    | BackupNotDirectory(path: string)
    | CreateFailed(path: string)
    | CanonicalizeSourceFailed(path: string)
    | CanonicalizeBackupFailed(path: string)
    | SameDirectory
    | InsideSource

  /** The message of each error; `{:?}` of a path and the `io::Error` text are left to the caller. */
  function Message(e: ValidationError): (r: string)
    ensures |r| > 0
    ensures r[|r| - 1] == ' ' <==> !(e.SameDirectory? || e.InsideSource?)
  {
    match e
    case SourceMissing(_) => "source path does not exist: "
    case SourceNotDirectory(_) => "source must be a directory: "
    case BackupNotDirectory(_) => "backup destination exists and is not a directory: "
    case CreateFailed(_) => "failed to create backup directory "
    case CanonicalizeSourceFailed(_) => "failed to canonicalize source "
    case CanonicalizeBackupFailed(_) => "failed to canonicalize backup directory "
    case SameDirectory => "backup directory cannot be the same as source directory"
    case InsideSource => "backup directory cannot be inside source directory"
  }

  /** The outcome, and whether `create_dir_all` was called on the backup directory. */
  datatype Validation = Validation(result: Result<ValidatedPaths, ValidationError>, created: bool)

  /** `validate_paths(config)`. */
  function ValidatePaths(c: BackupConfig, env: Env): (v: Validation)
    ensures v.created <==> env.kind(c.source) == Directory && env.kind(c.destination) == Missing
    ensures v.result.Ok? ==>
      && v.result.value.sourceRoot != v.result.value.backupDir
      && !StartsWith(v.result.value.backupDir, v.result.value.sourceRoot)
  {
    var source := c.source;
    var backup := c.destination;
    if env.kind(source) == Missing then Validation(Err(SourceMissing(source)), false)
    else if env.kind(source) != Directory then Validation(Err(SourceNotDirectory(source)), false)
    else if env.kind(backup) == NotDirectory then Validation(Err(BackupNotDirectory(backup)), false)
    else
      var created := env.kind(backup) == Missing;
      if created && !env.createDirAll(backup) then Validation(Err(CreateFailed(backup)), created)
      else if env.canonicalize(source).None? then Validation(Err(CanonicalizeSourceFailed(source)), created)
      else if env.canonicalize(backup).None? then Validation(Err(CanonicalizeBackupFailed(backup)), created)
      else
        var sourceCanon := env.canonicalize(source).value;
        var backupCanon := env.canonicalize(backup).value;
        if sourceCanon == backupCanon then Validation(Err(SameDirectory), created)
        else if StartsWith(backupCanon, sourceCanon) then Validation(Err(InsideSource), created)
        else Validation(Ok(ValidatedPaths(sourceCanon, backupCanon)), created)
  }

  /** Every check before the overlap checks passes: both paths are canonicalised. */
  predicate Canonicalised(c: BackupConfig, env: Env)
  {
    && env.kind(c.source) == Directory
    && env.kind(c.destination) != NotDirectory
    && (env.kind(c.destination) == Missing ==> env.createDirAll(c.destination))
    && env.canonicalize(c.source).Some?
    && env.canonicalize(c.destination).Some?
  }

  /**
   * Validation succeeds exactly when the checks pass and the canonical
   * backup directory is neither the canonical source nor under it; it then
   * returns the canonical forms.
   */
  lemma ValidateOkExactly(c: BackupConfig, env: Env)
    ensures ValidatePaths(c, env).result.Ok? <==>
      && Canonicalised(c, env)
      && env.canonicalize(c.source) != env.canonicalize(c.destination)
      && !StartsWith(env.canonicalize(c.destination).value, env.canonicalize(c.source).value)
    ensures ValidatePaths(c, env).result.Ok? ==>
      ValidatePaths(c, env).result.value == ValidatedPaths(env.canonicalize(c.source).value, env.canonicalize(c.destination).value)
  {
  }

  /** A missing or non-directory source is refused before anything is created. */
  lemma SourceChecked(c: BackupConfig, env: Env)
    ensures env.kind(c.source) == Missing ==> ValidatePaths(c, env) == Validation(Err(SourceMissing(c.source)), false)
    ensures env.kind(c.source) == NotDirectory ==> ValidatePaths(c, env) == Validation(Err(SourceNotDirectory(c.source)), false)
  {
  }

  /** An existing non-directory backup destination is refused before anything is created. */
  lemma BackupNotDirectoryRefused(c: BackupConfig, env: Env)
    requires env.kind(c.source) == Directory && env.kind(c.destination) == NotDirectory
    ensures ValidatePaths(c, env) == Validation(Err(BackupNotDirectory(c.destination)), false)
  {
  }

  /**
   * A missing backup directory is created before the overlap checks, so it
   * is created even when validation then fails on them.
   */
  lemma CreatedBeforeOverlapChecks(c: BackupConfig, env: Env)
    requires env.kind(c.source) == Directory && env.kind(c.destination) == Missing
    requires Canonicalised(c, env)
    requires env.canonicalize(c.source) == env.canonicalize(c.destination)
    ensures ValidatePaths(c, env) == Validation(Err(SameDirectory), true)
  {
  }

  /** Equal canonical paths are refused. */
  lemma SameDirectoryRefused(c: BackupConfig, env: Env)
    requires Canonicalised(c, env)
    requires env.canonicalize(c.source) == env.canonicalize(c.destination)
    ensures ValidatePaths(c, env).result == Err(SameDirectory)
  {
  }

  /** A backup directory strictly under the source, component-wise, is refused. */
  lemma InsideSourceRefused(c: BackupConfig, env: Env)
    requires Canonicalised(c, env)
    requires env.canonicalize(c.source) != env.canonicalize(c.destination)
    requires StartsWith(env.canonicalize(c.destination).value, env.canonicalize(c.source).value)
    ensures ValidatePaths(c, env).result == Err(InsideSource)
  {
  }

  /** The other way round is allowed: a source strictly under the backup directory passes. */
  lemma SourceInsideBackupAccepted(c: BackupConfig, env: Env)
    requires Canonicalised(c, env)
    requires env.canonicalize(c.source) != env.canonicalize(c.destination)
    requires StartsWith(env.canonicalize(c.source).value, env.canonicalize(c.destination).value)
    ensures ValidatePaths(c, env).result == Ok(ValidatedPaths(env.canonicalize(c.source).value, env.canonicalize(c.destination).value))
  {
    var s := env.canonicalize(c.source).value;
    var b := env.canonicalize(c.destination).value;
    if StartsWith(b, s) {
      StartsWithAntisymmetric(s, b);
    }
  }
}
