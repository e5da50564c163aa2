/**
 * `inspect_backup`: parses the header and the embedded manifest and
 * summarises the manifest (file count, total size, the first ten files and
 * how many more there are). The frames after the manifest are never read.
 */
module Inspect {
  import opened Bytes
  import opened Wrappers
  import opened Container

  /** How many manifest files the summary lists by name. */
  const SampleSize: nat := 10

  /**
   * What `inspect_backup` prints: the manifest's own fields, the file count,
   * the total size, the listed files, and the "N more files" count if printed.
   */
  datatype Summary = Summary(
    source: seq<Byte>,
    backupFile: seq<Byte>,
    createdAt: nat,
    fileCount: nat,
    totalSize: nat,
    sample: seq<ManifestFile>,
    more: Option<nat>)

  /** The sum of the files' sizes, as a mathematical integer. */
  function TotalSize(files: seq<ManifestFile>): (r: nat)
    ensures forall i :: 0 <= i < |files| ==> files[i].size <= r
    ensures r == 0 <==> forall i :: 0 <= i < |files| ==> files[i].size == 0
  {
    if |files| == 0 then 0 else files[0].size + TotalSize(files[1..])
  }

  lemma {:induction false} TotalSizeAppend(a: seq<ManifestFile>, b: seq<ManifestFile>)
    ensures TotalSize(a + b) == TotalSize(a) + TotalSize(b)
    decreases |a|
  {
    if |a| == 0 {
      assert a + b == b;
    } else {
      assert (a + b)[1..] == a[1..] + b;
      TotalSizeAppend(a[1..], b);
    }
  }

  /**
   * `manifest.files.iter().map(|f| f.size).sum()`: the running total, front
   * to back, is the total size.
   */
  method SumSizes(files: seq<ManifestFile>) returns (total: nat)
    ensures total == TotalSize(files)
  {
    total := 0;
    var i := 0;
    while i < |files|
      invariant 0 <= i <= |files|
      invariant total == TotalSize(files[..i])
    {
      TotalSizeAppend(files[..i], [files[i]]);
      assert files[..i + 1] == files[..i] + [files[i]];
      total := total + files[i].size;
      i := i + 1;
    }
    assert files[..i] == files;
  }

  /**
   * `inspect_backup` on the archive bytes `s`, with `parse` this reader's own manifest
   * deserializer: the header errors of the shared header parse, or the
   * summary of the manifest.
   */
  function InspectBackup(s: seq<Byte>, parse: seq<Byte> -> Option<Manifest>): (r: Result<Summary, IoErrorKind>)
    ensures r.Ok? <==> ReadHeader(s, parse).Ok?
    ensures r.Err? ==> r.error == ReadHeader(s, parse).error
    ensures r.Ok? ==>
      var files := ReadHeader(s, parse).value.manifest.files;
      && r.value.fileCount == |files|
      && |r.value.sample| == Min(SampleSize, |files|)
      && r.value.sample <= files
      && (r.value.more.Some? <==> |files| > SampleSize)
      && (r.value.more.Some? ==> |r.value.sample| + r.value.more.value == |files|)
      && (r.value.more.None? ==> r.value.sample == files)
  {
    match ReadHeader(s, parse)
    case Err(e) => Err(e)
    case Ok(hdr) =>
      var m := hdr.manifest;
      var n := |m.files|;
      Ok(Summary(m.source, m.backupFile, m.createdAt, n, TotalSize(m.files),
                 m.files[..Min(SampleSize, n)],
                 if n > SampleSize then Some(n - SampleSize) else None))
  }

  /**
   * The checks before the summary: a wrong magic or version is `InvalidData`;
   * the manifest is exactly the declared number of bytes after the header, and
   * the summary describes what it parses to.
   */
  lemma InspectHeader(s: seq<Byte>, parse: seq<Byte> -> Option<Manifest>)
    ensures |s| >= 4 && s[..4] != Magic ==> InspectBackup(s, parse) == Err(InvalidData)
    ensures |s| >= 8 && s[..4] == Magic && FromLE(s[4..8]) != FormatVersion ==> InspectBackup(s, parse) == Err(InvalidData)
    ensures InspectBackup(s, parse).Ok? ==>
      && |s| >= HeaderSize
      && HeaderSize + DeclaredManifestLength(s) <= |s|
      && var m := parse(s[HeaderSize..HeaderSize + DeclaredManifestLength(s)]);
      && m.Some?
      && InspectBackup(s, parse).value.fileCount == |m.value.files|
      && InspectBackup(s, parse).value.totalSize == TotalSize(m.value.files)
  {
    ReadHeaderSpec(s, parse);
  }

  /**
   * Inspect never reads past the manifest: whatever follows it (the frames,
   * or nothing at all) leaves the result unchanged.
   */
  lemma InspectIgnoresFrames(s: seq<Byte>, t: seq<Byte>, parse: seq<Byte> -> Option<Manifest>)
    requires ReadHeader(s, parse).Ok?
    requires |t| >= ReadHeader(s, parse).value.next
    requires t[..ReadHeader(s, parse).value.next] == s[..ReadHeader(s, parse).value.next]
    ensures InspectBackup(t, parse) == InspectBackup(s, parse)
  {
    ReadHeaderPrefix(s, t, parse);
  }

  /** In particular the archive cut right after its manifest inspects the same. */
  lemma InspectHeaderOnly(s: seq<Byte>, parse: seq<Byte> -> Option<Manifest>)
    requires ReadHeader(s, parse).Ok?
    ensures InspectBackup(s[..ReadHeader(s, parse).value.next], parse) == InspectBackup(s, parse)
  {
    var n := ReadHeader(s, parse).value.next;
    assert s[..n][..n] == s[..n];
    InspectIgnoresFrames(s, s[..n], parse);
  }
}
