/**
 * The manifest's file list as `build_manifest_json` builds it: one entry per
 * hashed file, in order, with the stored path, the size, and the digest in
 * lowercase hexadecimal (`hash_to_hex`). The JSON text itself is not modelled.
 */
module ManifestBuilder {
  import opened Bytes
  import opened Wrappers
  import opened RustPath
  import opened Entries
  import opened Container
  import Utf8
  import BackupFile

  predicate IsHexDigit(c: char)
  {
    '0' <= c <= '9' || 'a' <= c <= 'f'
  }

  /** The lowercase hexadecimal digit for a nibble, as `{:x}` prints it. */
  function HexDigit(n: nat): (c: char)
    requires n < 16
    ensures IsHexDigit(c)
  {
    if n < 10 then (48 + n) as char else (87 + n) as char
  }

  /** The nibble a lowercase hexadecimal digit stands for. */
  function DigitValue(c: char): (n: nat)
    requires IsHexDigit(c)
    ensures n < 16 && HexDigit(n) == c
  {
    if c <= '9' then c as int - 48 else c as int - 87
  }

  lemma DigitValueOfHexDigit(n: nat)
    requires n < 16
    ensures DigitValue(HexDigit(n)) == n
  {
  }

  /** The two digits `{:02x}` prints for one byte, high nibble first. */
  function ByteHex(b: Byte): (r: string)
    ensures |r| == 2 && IsHexDigit(r[0]) && IsHexDigit(r[1])
  {
    [HexDigit(b / 16), HexDigit(b % 16)]
  }

  /** `hash_to_hex`: the bytes' digit pairs, in byte order. */
  function HashToHex(hash: seq<Byte>): (r: string)
    ensures |r| == 2 * |hash|
  {
    if |hash| == 0 then "" else ByteHex(hash[0]) + HashToHex(hash[1..])
  }

  /** Every character is a lowercase hexadecimal digit, and byte `i` is spelled at `2 * i`, high nibble first. */
  lemma {:induction false} HashToHexDigits(hash: seq<Byte>)
    ensures var r := HashToHex(hash);
      && (forall i :: 0 <= i < |r| ==> IsHexDigit(r[i]))
      && (forall i :: 0 <= i < |hash| ==> r[2 * i] == HexDigit(hash[i] / 16) && r[2 * i + 1] == HexDigit(hash[i] % 16))
    decreases |hash|
  {
    if |hash| > 0 {
      var rest := HashToHex(hash[1..]);
      var r := HashToHex(hash);
      HashToHexDigits(hash[1..]);
      assert r == ByteHex(hash[0]) + rest;
      forall i | 2 <= i < |r| ensures r[i] == rest[i - 2] { }
      forall i | 1 <= i < |hash|
        ensures r[2 * i] == HexDigit(hash[i] / 16) && r[2 * i + 1] == HexDigit(hash[i] % 16)
      {
        var j := i - 1;
        assert hash[i] == hash[1..][j];
        assert 2 * i == 2 * j + 2;
      }
    }
  }

  /** A byte's digit pair reads back as the byte. */
  lemma ByteHexValue(b: Byte)
    ensures 16 * DigitValue(ByteHex(b)[0]) + DigitValue(ByteHex(b)[1]) == b
  {
    DigitValueOfHexDigit(b / 16);
    DigitValueOfHexDigit(b % 16);
  }

  /** Reads pairs of lowercase hexadecimal digits back into bytes; anything else is `None`. */
  function FromHex(s: string): (r: Option<seq<Byte>>)
    ensures r.Some? ==> 2 * |r.value| == |s|
    decreases |s|
  {
    if |s| == 0 then Some([])
    else if |s| == 1 || !IsHexDigit(s[0]) || !IsHexDigit(s[1]) then None
    else
      match FromHex(s[2..])
      case None => None
      case Some(rest) => Some([16 * DigitValue(s[0]) + DigitValue(s[1])] + rest)
  }

  /** The hexadecimal form reads back as the bytes it was made from. */
  lemma {:induction false} FromHexToHex(hash: seq<Byte>)
    ensures FromHex(HashToHex(hash)) == Some(hash)
    decreases |hash|
  {
    if |hash| > 0 {
      var pair := ByteHex(hash[0]);
      var rest := HashToHex(hash[1..]);
      var r := pair + rest;
      assert r[0] == pair[0] && r[1] == pair[1] && r[2..] == rest;
      FromHexToHex(hash[1..]);
      ByteHexValue(hash[0]);
      assert FromHex(r) == Some([hash[0]] + hash[1..]);
      assert [hash[0]] + hash[1..] == hash;
    }
  }

  /** Conversely, a string that reads as bytes is exactly their hexadecimal form: the form is canonical. */
  lemma {:induction false} ToHexFromHex(s: string)
    requires FromHex(s).Some?
    ensures HashToHex(FromHex(s).value) == s
    decreases |s|
  {
    if |s| > 0 {
      var hi := DigitValue(s[0]);
      var lo := DigitValue(s[1]);
      var b := 16 * hi + lo;
      var h := FromHex(s).value;
      assert h[0] == b && h[1..] == FromHex(s[2..]).value;
      ToHexFromHex(s[2..]);
      assert b / 16 == hi && b % 16 == lo;
      assert ByteHex(b) == [s[0], s[1]];
      assert HashToHex(h) == [s[0], s[1]] + s[2..];
    }
  }

  /** Distinct digests have distinct hexadecimal forms. */
  lemma HashToHexInjective(a: seq<Byte>, b: seq<Byte>)
    ensures HashToHex(a) == HashToHex(b) ==> a == b
  {
    FromHexToHex(a);
    FromHexToHex(b);
  }

  /** The manifest entry for one hashed file. */
  function ManifestEntry(root: RPath, h: HashedFile): (m: ManifestFile)
    ensures Utf8.Valid(m.path)
    ensures |m.sha256| == 64 && FromHex(m.sha256) == Some(h.hash)
  {
    FromHexToHex(h.hash);
    ManifestFile(StoredPath(h.entry.path, root), h.entry.size, HashToHex(h.hash))
  }

  /** The `files` list of `build_manifest_json`: one entry per hashed file, in the same order. */
  function ManifestFiles(root: RPath, hashed: seq<HashedFile>): (r: seq<ManifestFile>)
    ensures |r| == |hashed|
    ensures forall i :: 0 <= i < |r| ==>
      && r[i].path == StoredPath(hashed[i].entry.path, root)
      && r[i].size == hashed[i].entry.size
      && FromHex(r[i].sha256) == Some(hashed[i].hash)
  {
    if |hashed| == 0 then []
    else
      var rest := ManifestFiles(root, hashed[1..]);
      var e := ManifestEntry(root, hashed[0]);
      var r := [e] + rest;
      assert r[0] == e;
      assert forall i :: 1 <= i < |r| ==> r[i] == rest[i - 1];
      assert forall i :: 1 <= i < |r| ==> hashed[i] == hashed[1..][i - 1];
      r
  }

  /** Every listed file's entry is in the list. */
  lemma {:induction false} ManifestEntryIn(root: RPath, hashed: seq<HashedFile>, h: HashedFile)
    requires h in hashed
    ensures ManifestEntry(root, h) in ManifestFiles(root, hashed)
    decreases |hashed|
  {
    if hashed[0] != h {
      assert h in hashed[1..];
      ManifestEntryIn(root, hashed[1..], h);
    }
  }

  /**
   * The manifest and the frames agree: each frame written for the same file
   * list has an entry in the manifest with the frame's path and size, whose
   * `sha256` reads back as the frame's digest.
   */
  lemma ManifestCoversFrames(root: RPath, files: seq<HashedFile>, open: RPath -> BackupFile.SourceFile)
    requires BackupFile.WriteFrames(root, files, open).Ok?
    ensures var frames := BackupFile.WriteFrames(root, files, open).value;
      forall j :: 0 <= j < |frames| ==>
        && ManifestFile(frames[j].path, frames[j].size, HashToHex(frames[j].hash)) in ManifestFiles(root, files)
        && FromHex(HashToHex(frames[j].hash)) == Some(frames[j].hash)
  {
    var frames := BackupFile.WriteFrames(root, files, open).value;
    var kept := BackupFile.Kept(root, files);
    BackupFile.WriteFramesSpec(root, files, open);
    forall j | 0 <= j < |frames|
      ensures ManifestFile(frames[j].path, frames[j].size, HashToHex(frames[j].hash)) in ManifestFiles(root, files)
      ensures FromHex(HashToHex(frames[j].hash)) == Some(frames[j].hash)
    {
      assert BackupFile.FrameOf(root, kept[j], open, frames[j]);
      ManifestEntryIn(root, files, kept[j]);
      FromHexToHex(frames[j].hash);
    }
  }
}
