/**
 * Rust `Path` values as component sequences: `strip_prefix`, `starts_with`
 * and `join` compare and combine whole components, never raw bytes.
 */
module RustPath {
  import opened Bytes
  import opened Wrappers

  const Slash: Byte := 0x2F

  /** One path component: non-empty, without a separator. */
  type Component = c: seq<Byte> | |c| > 0 && Slash !in c witness [0x61]

  datatype RPath = RPath(absolute: bool, parts: seq<Component>)

  /** The components joined by `/`. */
  function JoinParts(parts: seq<Component>): seq<Byte>
  {
    if |parts| == 0 then []
    else if |parts| == 1 then parts[0]
    else parts[0] + [Slash] + JoinParts(parts[1..])
  }

  /** The bytes of `path.as_os_str()`. */
  function Render(p: RPath): (r: seq<Byte>)
    ensures !p.absolute ==> r == JoinParts(p.parts)
  {
    (if p.absolute then [Slash] else []) + JoinParts(p.parts)
  }

  /** `path.starts_with(base)`: `base` is a whole-component prefix of `path`. */
  predicate StartsWith(path: RPath, base: RPath): (b: bool)
    ensures b <==> exists rest: seq<Component> :: path == RPath(base.absolute, base.parts + rest)
  {
    var b := path.absolute == base.absolute && base.parts <= path.parts;
    assert b ==> path == RPath(base.absolute, base.parts + path.parts[|base.parts|..]);
    b
  }

  /**
   * `base.join(rel)`: an absolute `rel` replaces `base` altogether;
   * otherwise its components follow those of `base`.
   */
  function Join(base: RPath, rel: RPath): (r: RPath)
    ensures rel.absolute ==> r == rel
    ensures !rel.absolute ==> StartsWith(r, base) && r.parts[|base.parts|..] == rel.parts
  {
    if rel.absolute then rel
    else
      assert (base.parts + rel.parts)[|base.parts|..] == rel.parts;
      RPath(base.absolute, base.parts + rel.parts)
  }

  /** `path.strip_prefix(base).ok()`. */
  function StripPrefix(path: RPath, base: RPath): (r: Option<RPath>)
    ensures r.Some? <==> StartsWith(path, base)
    ensures r.Some? ==> !r.value.absolute && Join(base, r.value) == path
  {
    if StartsWith(path, base) then
      var rel := RPath(false, path.parts[|base.parts|..]);
      assert base.parts + rel.parts == path.parts;
      Some(rel)
    else None
  }

  /** Stripping a prefix that was just joined on gives back the joined part. */
  lemma StripJoin(base: RPath, rel: RPath)
    requires !rel.absolute
    ensures StripPrefix(Join(base, rel), base) == Some(rel)
  {
  }

  /** Two paths that start with each other are the same path. */
  lemma StartsWithAntisymmetric(a: RPath, b: RPath)
    requires StartsWith(a, b) && StartsWith(b, a)
    ensures a == b
  {
  }

  /** On Unix a path is absolute when its bytes begin with `/`. */
  predicate IsAbsoluteBytes(s: seq<Byte>)
  {
    |s| > 0 && s[0] == Slash
  }

  /** The offset of the first `/` in `s`, or `|s|`. */
  function FirstSlash(s: seq<Byte>): (k: nat)
    ensures k <= |s|
    ensures k < |s| ==> s[k] == Slash
    ensures forall i :: 0 <= i < k ==> s[i] != Slash
  {
    if |s| == 0 || s[0] == Slash then 0 else 1 + FirstSlash(s[1..])
  }

  /** The pieces of a byte path between separators; repeated and trailing separators give no piece. */
  function Pieces(s: seq<Byte>): (r: seq<Component>)
    decreases |s|
  {
    if |s| == 0 then []
    else if s[0] == Slash then Pieces(s[1..])
    else
      var k := FirstSlash(s);
      assert Slash !in s[..k] by {
        forall i | 0 <= i < k ensures s[..k][i] != Slash { }
      }
      [s[..k]] + Pieces(s[k..])
  }

  /**
   * The path a byte string names. Unlike `Path::components`, an interior
   * `.` is kept as a component; the paths compared with `starts_with` here
   * are canonical or built from directory entries, and restore joins bytes.
   */
  function Parse(s: seq<Byte>): (r: RPath)
    ensures r.absolute <==> IsAbsoluteBytes(s)
  {
    RPath(IsAbsoluteBytes(s), Pieces(s))
  }

  lemma PiecesSlash(s: seq<Byte>)
    requires |s| > 0 && s[0] == Slash
    ensures Pieces(s) == Pieces(s[1..])
  {
  }

  lemma PiecesPiece(s: seq<Byte>)
    requires |s| > 0 && s[0] != Slash
    ensures Pieces(s) == [s[..FirstSlash(s)]] + Pieces(s[FirstSlash(s)..])
  {
  }

  lemma {:induction false} FirstSlashAt(s: seq<Byte>, k: nat)
    requires k < |s| && s[k] == Slash && forall i :: 0 <= i < k ==> s[i] != Slash
    ensures FirstSlash(s) == k
    decreases k
  {
    if k > 0 {
      FirstSlashAt(s[1..], k - 1);
    }
  }

  /** The first piece of `x + "/" + y` is the first piece of `x`. */
  lemma SplitPiece(x: seq<Byte>, y: seq<Byte>)
    requires |x| > 0 && x[0] != Slash
    ensures var s := x + [Slash] + y; var k := FirstSlash(x);
      && |s| > 0 && s[0] != Slash
      && FirstSlash(s) == k
      && s[..k] == x[..k]
      && s[k..] == x[k..] + [Slash] + y
  {
    var s := x + [Slash] + y;
    var k := FirstSlash(x);
    assert s[k] == Slash;
    assert forall i :: 0 <= i < k ==> s[i] == x[i];
    FirstSlashAt(s, k);
  }

  /** Joining two byte paths with `/` joins their pieces. */
  lemma {:induction false} PiecesJoin(x: seq<Byte>, y: seq<Byte>)
    ensures Pieces(x + [Slash] + y) == Pieces(x) + Pieces(y)
    decreases |x|
  {
    var s := x + [Slash] + y;
    if |x| == 0 {
      assert s == [Slash] + y && s[1..] == y;
      PiecesSlash(s);
    } else if x[0] == Slash {
      assert s[0] == Slash && s[1..] == x[1..] + [Slash] + y;
      PiecesSlash(s);
      PiecesSlash(x);
      PiecesJoin(x[1..], y);
    } else {
      var k := FirstSlash(x);
      SplitPiece(x, y);
      PiecesPiece(s);
      PiecesPiece(x);
      var piece: seq<Component> := [x[..k]];
      if k < |x| {
        PiecesJoin(x[k..], y);
        assert Pieces(s) == piece + (Pieces(x[k..]) + Pieces(y));
      } else {
        assert x[k..] == [] && s[k..] == [Slash] + y && s[k..][1..] == y;
        PiecesSlash(s[k..]);
        assert Pieces(s) == piece + Pieces(y);
        assert Pieces(x) == piece;
      }
    }
  }

  /** A byte path ending in `/` has the pieces it has without that `/`. */
  lemma TrailingSlash(x: seq<Byte>)
    requires |x| > 0 && x[|x| - 1] == Slash
    ensures Pieces(x) == Pieces(x[..|x| - 1])
  {
    var x' := x[..|x| - 1];
    assert x == x' + [Slash] + [];
    PiecesJoin(x', []);
  }

  lemma PiecesOfComponent(c: Component)
    ensures Pieces(c) == [c]
  {
    assert forall i :: 0 <= i < |c| ==> c[i] in c;
    FirstSlashAt(c + [Slash], |c|);
    assert FirstSlash(c) == |c|;
    assert c[..|c|] == c;
    assert c[|c|..] == [];
  }

  /** Reading back a rendered path gives the same path. */
  lemma {:induction false} ParseRender(p: RPath)
    ensures Parse(Render(p)) == p
  {
    PiecesJoinParts(p.parts);
    if p.absolute {
      assert Render(p) == [Slash] + JoinParts(p.parts);
      assert Render(p)[1..] == JoinParts(p.parts);
      PiecesSlash(Render(p));
    } else if |p.parts| > 0 {
      assert Render(p)[0] == p.parts[0][0] by {
        JoinPartsStart(p.parts);
      }
      assert p.parts[0][0] in p.parts[0];
    }
  }

  lemma {:induction false} PiecesJoinParts(parts: seq<Component>)
    ensures Pieces(JoinParts(parts)) == parts
    decreases |parts|
  {
    if |parts| == 1 {
      PiecesOfComponent(parts[0]);
    } else if |parts| > 1 {
      PiecesJoin(parts[0], JoinParts(parts[1..]));
      PiecesOfComponent(parts[0]);
      PiecesJoinParts(parts[1..]);
    }
  }

  lemma JoinPartsStart(parts: seq<Component>)
    requires |parts| > 0
    ensures |JoinParts(parts)| > 0 && JoinParts(parts)[0] == parts[0][0]
  {
  }

  /**
   * `dir.join(path)` on the bytes, as `PathBuf::push` builds it: an absolute
   * `path` replaces `dir`; otherwise `path` follows `dir`, after a `/`
   * unless `dir` is empty or already ends in one.
   */
  function PushBytes(dir: seq<Byte>, path: seq<Byte>): (r: seq<Byte>)
    ensures IsAbsoluteBytes(path) ==> r == path
    ensures !IsAbsoluteBytes(path) ==> dir <= r && |r| >= |dir| + |path| && r[|r| - |path|..] == path
  {
    if IsAbsoluteBytes(path) then path
    else if |dir| > 0 && dir[|dir| - 1] != Slash then dir + [Slash] + path
    else dir + path
  }

  /** Joining the bytes names the path that joining the parsed paths gives. */
  lemma PushJoins(dir: seq<Byte>, path: seq<Byte>)
    ensures Parse(PushBytes(dir, path)) == Join(Parse(dir), Parse(path))
  {
    if !IsAbsoluteBytes(path) {
      var r := PushBytes(dir, path);
      if |dir| > 0 && dir[|dir| - 1] != Slash {
        PiecesJoin(dir, path);
      } else if |dir| > 0 {
        var d' := dir[..|dir| - 1];
        assert r == d' + [Slash] + path;
        PiecesJoin(d', path);
        TrailingSlash(dir);
      } else {
        assert r == path;
      }
      if |dir| > 0 {
        assert r[0] == dir[0];
      }
    }
  }

  const Dot: Component := [0x2E]
  const DotDot: Component := [0x2E, 0x2E]

  /**
   * Where `parts` lead from the directory `at`, read lexically: `.` stays,
   * `..` goes up one level and never above the root, any other name goes
   * down. Symbolic links along the way are not followed.
   */
  function Resolve(at: seq<Component>, parts: seq<Component>): (r: seq<Component>)
    ensures DotDot !in parts ==> at <= r
    decreases |parts|
  {
    if |parts| == 0 then at
    else
      var next :=
        if parts[0] == Dot then at
        else if parts[0] == DotDot then (if |at| == 0 then [] else at[..|at| - 1])
        else at + [parts[0]];
      assert DotDot !in parts ==> DotDot !in parts[1..] && at <= next;
      Resolve(next, parts[1..])
  }

  lemma {:induction false} ResolveAppend(at: seq<Component>, a: seq<Component>, b: seq<Component>)
    ensures Resolve(at, a + b) == Resolve(Resolve(at, a), b)
    decreases |a|
  {
    if |a| == 0 {
      assert a + b == b;
    } else {
      assert (a + b)[0] == a[0] && (a + b)[1..] == a[1..] + b;
      var next :=
        if a[0] == Dot then at
        else if a[0] == DotDot then (if |at| == 0 then [] else at[..|at| - 1])
        else at + [a[0]];
      ResolveAppend(next, a[1..], b);
    }
  }

  /**
   * A relative path without `..` joined onto `dir` leads to `dir` or below
   * it; the lexical resolution of the result starts with that of `dir`.
   */
  lemma PushStaysBelow(dir: seq<Byte>, path: seq<Byte>)
    requires !IsAbsoluteBytes(path) && DotDot !in Pieces(path)
    ensures Resolve([], Pieces(dir)) <= Resolve([], Pieces(PushBytes(dir, path)))
  {
    PushJoins(dir, path);
    ResolveAppend([], Pieces(dir), Pieces(path));
  }

  /** `"/r".join("../x")` is `/r/../x`, which leads to `/x`, outside `/r`. */
  lemma DotDotClimbsOut()
    ensures var dir: seq<Byte> := [Slash, 0x72];
      var path: seq<Byte> := [0x2E, 0x2E, Slash, 0x78];
      && PushBytes(dir, path) == dir + [Slash] + path
      && Resolve([], Pieces(PushBytes(dir, path))) == [[0x78]]
      && !(Resolve([], Pieces(dir)) <= Resolve([], Pieces(PushBytes(dir, path))))
  {
    var dir: seq<Byte> := [Slash, 0x72];
    var path: seq<Byte> := [0x2E, 0x2E, Slash, 0x78];
    var r: Component := [0x72];
    var x: Component := [0x78];
    PiecesOfComponent(r);
    PiecesOfComponent(x);
    PiecesOfComponent(DotDot);
    assert dir == [] + [Slash] + r;
    PiecesJoin([], r);
    assert path == DotDot + [Slash] + x;
    PiecesJoin(DotDot, x);
    PushJoins(dir, path);
    var ps := [r, DotDot, x];
    assert Pieces(PushBytes(dir, path)) == ps;
    assert r != Dot && r != DotDot && x != Dot && x != DotDot && DotDot != Dot;
    assert ps[1..] == [DotDot, x] && ps[1..][1..] == [x] && [x][1..] == [];
    assert Resolve([], ps) == Resolve([r], [DotDot, x]) == Resolve([], [x]) == [x];
  }
}
