/**
 * The file list the backup writer and the manifest builder consume: a
 * scanned `FileEntry` with its SHA-256 (a `HashedFile`), and the relative
 * path both of them store for it.
 */
module Entries {
  import opened Bytes
  import opened RustPath
  import Utf8
  import Container

  datatype FileEntry = FileEntry(path: RPath, size: U64)

  datatype HashedFile = HashedFile(entry: FileEntry, hash: Container.Digest)

  /**
   * `path.strip_prefix(root).unwrap_or(path).to_string_lossy()`, as bytes:
   * the path relative to the source root, or the whole path when it is not
   * under the root, with ill-formed UTF-8 replaced.
   */
  function StoredPath(path: RPath, root: RPath): (r: seq<Byte>)
    ensures Utf8.Valid(r)
    ensures StartsWith(path, root) && Utf8.Valid(JoinParts(path.parts[|root.parts|..]))
      ==> r == JoinParts(path.parts[|root.parts|..])
    ensures !StartsWith(path, root) && Utf8.Valid(Render(path)) ==> r == Render(path)
  {
    var shown := match StripPrefix(path, root)
      case Some(rel) => rel
      case None => path;
    Utf8.LossyFacts(Render(shown));
    Utf8.Lossy(Render(shown))
  }
}
