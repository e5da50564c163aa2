/**
 * The slice of a POSIX filesystem the directory-mirror engine touches: a
 * tree of directories, regular files, symbolic links and other special
 * files, addressed by component sequences from the root; textual path
 * resolution with `.`, `..` and symbolic links (at most 40 link hops, as on
 * Linux); and the system calls `stat`, `open`, `mkdir` as they act on it.
 */
module Posix {
  import opened Bytes
  import opened Wrappers

  /** `PATH_MAX` on Linux, counting the terminating NUL. */
  const PathMax: nat := 4096
  /** Linux's bound on symbolic links followed while resolving one path (`ELOOP`). */
  const MaxSymlinkHops: nat := 40

  /** One directory entry name: non-empty, without `/`. */
  type Name = s: string | |s| > 0 && '/' !in s witness "a"

  /** A location: the names leading to it from the root. */
  type Loc = seq<Name>

  /** `mode` holds the permission bits, including set-user-ID, set-group-ID and sticky. */
  datatype Node =
    | Dir(mode: nat, children: seq<Name>)
    | File(mode: nat, data: seq<Byte>)
    | Symlink(target: string)
    | Other(mode: nat)

  datatype FileSystem = FileSystem(nodes: map<Loc, Node>, cwd: Loc)

  datatype Errno = NoEnt | NotDir | Loop | Exists | IsDir | Denied

  predicate IsDirAt(fs: FileSystem, l: Loc)
  {
    l in fs.nodes && fs.nodes[l].Dir?
  }

  function Parent(l: Loc): Loc
  {
    if |l| == 0 then [] else l[..|l| - 1]
  }

  /** The root and the working directory are directories, and so is the parent of every node. */
  ghost predicate Wf(fs: FileSystem)
  {
    && IsDirAt(fs, [])
    && IsDirAt(fs, fs.cwd)
    && forall l {:trigger Parent(l)} :: l in fs.nodes ==> IsDirAt(fs, Parent(l))
  }

  predicate IsAbsolute(path: string)
  {
    |path| > 0 && path[0] == '/'
  }

  /** The offset of the first `/` in `s`, or `|s|`. */
  function FirstSlash(s: string): (k: nat)
    ensures k <= |s|
    ensures k < |s| ==> s[k] == '/'
    ensures forall i :: 0 <= i < k ==> s[i] != '/'
  {
    if |s| == 0 || s[0] == '/' then 0 else 1 + FirstSlash(s[1..])
  }

  /** The components of a path: the pieces between slashes, empty pieces dropped. */
  function Segments(s: string): (r: seq<Name>)
    decreases |s|
  {
    if |s| == 0 then []
    else if s[0] == '/' then Segments(s[1..])
    else
      var k := FirstSlash(s);
      assert '/' !in s[..k] by {
        forall i | 0 <= i < k ensures s[..k][i] != '/' { }
      }
      [s[..k]] + Segments(s[k..])
  }

  lemma SegmentsOfName(n: Name)
    ensures Segments(n) == [n]
  {
    assert n[0] in n;
    assert forall i :: 0 <= i < |n| ==> n[i] in n;
    assert FirstSlash(n) == |n|;
    assert n[..|n|] == n;
    assert n[|n|..] == [];
  }

  /** Joining two paths with `/` joins their components. */
  lemma {:induction false} SegmentsJoin(x: string, y: string)
    ensures Segments(x + "/" + y) == Segments(x) + Segments(y)
    decreases |x|
  {
    var s := x + "/" + y;
    if |x| == 0 {
      assert s == "/" + y && s[1..] == y;
      SegmentsSlash(s);
    } else if x[0] == '/' {
      assert s[0] == '/' && s[1..] == x[1..] + "/" + y;
      SegmentsSlash(s);
      SegmentsSlash(x);
      SegmentsJoin(x[1..], y);
    } else {
      var k := FirstSlash(x);
      JoinPiece(x, y);
      SegmentsPiece(s);
      SegmentsPiece(x);
      var piece: seq<Name> := [x[..k]];
      if k < |x| {
        SegmentsJoin(x[k..], y);
        assert Segments(s) == piece + (Segments(x[k..]) + Segments(y));
      } else {
        assert x[k..] == [] && s[k..] == "/" + y && s[k..][1..] == y;
        SegmentsSlash(s[k..]);
        assert Segments(s) == piece + Segments(y);
        assert Segments(x) == piece;
      }
    }
  }

  lemma SegmentsSlash(s: string)
    requires |s| > 0 && s[0] == '/'
    ensures Segments(s) == Segments(s[1..])
  {
  }

  lemma SegmentsPiece(s: string)
    requires |s| > 0 && s[0] != '/'
    ensures Segments(s) == [s[..FirstSlash(s)]] + Segments(s[FirstSlash(s)..])
  {
  }

  /** The first piece of `x + "/" + y` is the first piece of `x`. */
  lemma JoinPiece(x: string, y: string)
    requires |x| > 0 && x[0] != '/'
    ensures var s := x + "/" + y; var k := FirstSlash(x);
      && |s| > 0 && s[0] != '/'
      && FirstSlash(s) == k
      && s[..k] == x[..k]
      && s[k..] == x[k..] + "/" + y
  {
    var s := x + "/" + y;
    var k := FirstSlash(x);
    assert s[k] == '/';
    assert forall i :: 0 <= i < k ==> s[i] == x[i];
    FirstSlashAt(s, k);
  }

  lemma {:induction false} FirstSlashAt(s: string, k: nat)
    requires k < |s| && s[k] == '/' && forall i :: 0 <= i < k ==> s[i] != '/'
    ensures FirstSlash(s) == k
    decreases k
  {
    if k > 0 {
      FirstSlashAt(s[1..], k - 1);
    }
  }

  /** `dir + "/" + name`, as `snprintf("%s/%s")` builds it, resolves one component further. */
  lemma SegmentsChild(dir: string, name: Name)
    ensures Segments(dir + "/" + name) == Segments(dir) + [name]
  {
    SegmentsJoin(dir, name);
    SegmentsOfName(name);
  }

  /**
   * Resolves `comps` from the directory `at`, following symbolic links met
   * on the way (and the last one too when `followLast`), with `hops` link
   * expansions left. Returns the location reached, which exists for every
   * component but possibly the last, and the hops left.
   */
  function Walk(fs: FileSystem, at: Loc, comps: seq<Name>, hops: nat, followLast: bool): (r: Result<(Loc, nat), Errno>)
    ensures r.Ok? ==> r.value.1 <= hops
    ensures r.Err? ==> r.error == NoEnt || r.error == NotDir || r.error == Loop
    ensures r.Ok? && |comps| == 0 ==> r.value.0 == at
    decreases hops, |comps|
  {
    if |comps| == 0 then Ok((at, hops))
    else if !IsDirAt(fs, at) then Err(if at in fs.nodes then NotDir else NoEnt)
    else
      var c := comps[0];
      if c == "." then Walk(fs, at, comps[1..], hops, followLast)
      else if c == ".." then Walk(fs, Parent(at), comps[1..], hops, followLast)
      else
        var child := at + [c];
        if child in fs.nodes && fs.nodes[child].Symlink? && (|comps| > 1 || followLast) then
          var target := fs.nodes[child].target;
          if hops == 0 then Err(Loop)
          else if |target| == 0 then Err(NoEnt)
          else
            match Walk(fs, if IsAbsolute(target) then [] else at, Segments(target), hops - 1, true)
            case Err(e) => Err(e)
            case Ok((l, left)) => Walk(fs, l, comps[1..], left, followLast)
        else if |comps| == 1 then Ok((child, hops))
        else if child !in fs.nodes then Err(NoEnt)
        else Walk(fs, child, comps[1..], hops, followLast)
  }

  /** Where `path` leads, from the root or the working directory. */
  function Locate(fs: FileSystem, path: string, follow: bool): (r: Result<Loc, Errno>)
    ensures |path| == 0 ==> r == Err(NoEnt)
    ensures r.Err? ==> r.error == NoEnt || r.error == NotDir || r.error == Loop
  {
    if |path| == 0 then Err(NoEnt)
    else
      match Walk(fs, if IsAbsolute(path) then [] else fs.cwd, Segments(path), MaxSymlinkHops, follow)
      case Err(e) => Err(e)
      case Ok((l, _)) => Ok(l)
  }

  /** `stat(path)`: the node `path` leads to, symbolic links followed. */
  function Stat(fs: FileSystem, path: string): (r: Result<Node, Errno>)
    ensures r.Ok? <==> Locate(fs, path, true).Ok? && Locate(fs, path, true).value in fs.nodes
    ensures r.Err? ==> r.error == NoEnt || r.error == NotDir || r.error == Loop
  {
    match Locate(fs, path, true)
    case Err(e) => Err(e)
    case Ok(l) => if l in fs.nodes then Ok(fs.nodes[l]) else Err(NoEnt)
  }

  /** `S_IFMT` type bits of `st_mode`. */
  const IfDir: nat := 0x4000
  const IfReg: nat := 0x8000
  const IfLnk: nat := 0xA000
  const IfFifo: nat := 0x1000

  /** `st_mode` of a node: its type bits and its twelve permission bits. */
  function StMode(n: Node): nat
  {
    match n
    case Dir(m, _) => IfDir + m % 0x1000
    case File(m, _) => IfReg + m % 0x1000
    case Symlink(_) => IfLnk + 0x1FF
    case Other(m) => IfFifo + m % 0x1000
  }

  /** `(mode & S_IFMT) == kind` for the `S_ISDIR`, `S_ISREG` and `S_ISLNK` tests. */
  predicate ModeIs(mode: nat, kind: nat)
  {
    (mode / 0x1000) % 16 * 0x1000 == kind
  }

  /** The `S_IS*` tests on `st_mode` tell exactly the node's kind. */
  lemma ModeKinds(n: Node)
    ensures ModeIs(StMode(n), IfDir) <==> n.Dir?
    ensures ModeIs(StMode(n), IfReg) <==> n.File?
    ensures ModeIs(StMode(n), IfLnk) <==> n.Symlink?
  {
    var p := StMode(n) % 0x1000;
    assert StMode(n) / 0x1000 == (StMode(n) - p) / 0x1000;
  }

  /** Adds `n` at the missing location `l` and lists it in its parent directory. */
  function AddNode(fs: FileSystem, l: Loc, n: Node): (r: FileSystem)
    requires |l| > 0 && IsDirAt(fs, Parent(l))
    ensures r.nodes.Keys == fs.nodes.Keys + {l}
    ensures r.nodes[l] == n && r.cwd == fs.cwd
    ensures var dir := fs.nodes[Parent(l)]; r.nodes[Parent(l)] == Dir(dir.mode, dir.children + [l[|l| - 1]])
    ensures forall k :: k in fs.nodes && k != l && k != Parent(l) ==> r.nodes[k] == fs.nodes[k]
  {
    var p := Parent(l);
    var dir := fs.nodes[p];
    var listed := fs.nodes[p := Dir(dir.mode, dir.children + [l[|l| - 1]])];
    FileSystem(listed[l := n], fs.cwd)
  }

  /**
   * `mkdir(path, mode)`: the last component is not followed, so any
   * existing entry there, a dangling link included, is `EEXIST`; missing
   * parents are not created. `denied` stands for a refusal by the system
   * (permissions, space).
   */
  function Mkdir(fs: FileSystem, path: string, mode: nat, denied: bool): (r: Result<FileSystem, Errno>)
    ensures r.Ok? ==> Locate(fs, path, false).Ok? && Locate(fs, path, false).value !in fs.nodes
    ensures r.Ok? ==> var l := Locate(fs, path, false).value;
      r.value.nodes.Keys == fs.nodes.Keys + {l} && r.value.nodes[l] == Dir(mode, [])
  {
    match Locate(fs, path, false)
    case Err(e) => Err(e)
    case Ok(l) =>
      if l in fs.nodes then Err(Exists)
      else if |l| == 0 || !IsDirAt(fs, Parent(l)) then Err(NoEnt)
      else if denied then Err(Denied)
      else Ok(AddNode(fs, l, Dir(mode, [])))
  }

  /** `open(path, O_RDONLY)`: the location opened, which exists. */
  function OpenRead(fs: FileSystem, path: string, denied: bool): (r: Result<Loc, Errno>)
    ensures r.Ok? ==> r.value in fs.nodes
  {
    match Locate(fs, path, true)
    case Err(e) => Err(e)
    case Ok(l) =>
      if l !in fs.nodes then Err(NoEnt)
      else if denied then Err(Denied)
      else Ok(l)
  }

  /**
   * `open(path, O_WRONLY | O_CREAT | O_TRUNC, mode)`: an existing regular
   * file is emptied and keeps its mode; a missing one is created with
   * `mode`; a directory is `EISDIR`. Returns the filesystem and the
   * location opened.
   */
  function OpenWrite(fs: FileSystem, path: string, mode: nat, denied: bool): (r: Result<(FileSystem, Loc), Errno>)
    ensures r.Ok? ==> var (fs', l) := r.value;
      && l in fs'.nodes && fs'.nodes[l].File? && fs'.nodes[l].data == []
      && (l in fs.nodes ==> fs.nodes[l].File? && fs'.nodes == fs.nodes[l := File(fs.nodes[l].mode, [])])
      && (l !in fs.nodes ==> fs'.nodes[l].mode == mode && |l| > 0 && IsDirAt(fs, Parent(l)))
      && fs'.nodes.Keys == fs.nodes.Keys + {l}
      && forall k :: k in fs.nodes && k != l && k != Parent(l) ==> fs'.nodes[k] == fs.nodes[k]
  {
    match Locate(fs, path, true)
    case Err(e) => Err(e)
    case Ok(l) =>
      if denied then Err(Denied)
      else if l in fs.nodes then
        match fs.nodes[l]
        case Dir(_, _) => Err(IsDir)
        case File(m, _) => Ok((fs.(nodes := fs.nodes[l := File(m, [])]), l))
        case Symlink(_) => Err(Loop)
        case Other(_) => Err(Denied)
      else if |l| == 0 || !IsDirAt(fs, Parent(l)) then Err(NoEnt)
      else Ok((AddNode(fs, l, File(mode, [])), l))
  }

  /** `opendir(path)` and what `readdir` then yields: `.`, `..` and the directory's entries, in order. */
  function ReadDir(fs: FileSystem, path: string, denied: bool): (r: Result<seq<Name>, Errno>)
    ensures r.Ok? ==> |r.value| >= 2 && r.value[0] == "." && r.value[1] == ".."
    ensures r.Ok? ==> Stat(fs, path).Ok? && Stat(fs, path).value.Dir? && r.value[2..] == Stat(fs, path).value.children
  {
    match Locate(fs, path, true)
    case Err(e) => Err(e)
    case Ok(l) =>
      if l !in fs.nodes then Err(NoEnt)
      else if !fs.nodes[l].Dir? then Err(NotDir)
      else if denied then Err(Denied)
      else Ok([".", ".."] + fs.nodes[l].children)
  }

  /** `l` is missing or not a symbolic link. */
  predicate NotLink(fs: FileSystem, l: Loc)
  {
    l !in fs.nodes || !fs.nodes[l].Symlink?
  }

  /** A walk that follows every link never ends on a link. */
  lemma {:induction false} WalkAvoidsLinks(fs: FileSystem, at: Loc, comps: seq<Name>, hops: nat)
    requires Wf(fs) && NotLink(fs, at)
    ensures Walk(fs, at, comps, hops, true).Ok? ==> NotLink(fs, Walk(fs, at, comps, hops, true).value.0)
    decreases hops, |comps|
  {
    if |comps| > 0 && IsDirAt(fs, at) {
      var c := comps[0];
      if c == "." {
        WalkAvoidsLinks(fs, at, comps[1..], hops);
      } else if c == ".." {
        WalkAvoidsLinks(fs, Parent(at), comps[1..], hops);
      } else {
        var child := at + [c];
        if child in fs.nodes && fs.nodes[child].Symlink? {
          var target := fs.nodes[child].target;
          if hops > 0 && |target| > 0 {
            var start := if IsAbsolute(target) then [] else at;
            var segs := Segments(target);
            var inner := Walk(fs, start, segs, hops - 1, true);
            WalkAvoidsLinks(fs, start, segs, hops - 1);
            if inner.Ok? {
              var (l, left) := inner.value;
              assert NotLink(fs, l);
              WalkAvoidsLinks(fs, l, comps[1..], left);
            }
          }
        } else if |comps| > 1 && child in fs.nodes {
          WalkAvoidsLinks(fs, child, comps[1..], hops);
        }
      }
    }
  }

  /**
   * `stat` never reports a symbolic link: on a well-formed filesystem every
   * link on the way, the last one included, is followed.
   */
  lemma StatNeverSymlink(fs: FileSystem, path: string)
    requires Wf(fs)
    ensures Stat(fs, path).Ok? ==> !Stat(fs, path).value.Symlink?
    ensures Stat(fs, path).Ok? ==> !ModeIs(StMode(Stat(fs, path).value), IfLnk)
  {
    if |path| > 0 {
      WalkAvoidsLinks(fs, if IsAbsolute(path) then [] else fs.cwd, Segments(path), MaxSymlinkHops);
    }
    if Stat(fs, path).Ok? {
      ModeKinds(Stat(fs, path).value);
    }
  }

  /**
   * Adding a node that is not a link at a missing location changes no
   * successful walk: such a walk never passed through that location.
   */
  lemma {:induction false} WalkAdd(fs: FileSystem, l: Loc, n: Node, at: Loc, comps: seq<Name>, hops: nat, follow: bool)
    requires |l| > 0 && IsDirAt(fs, Parent(l)) && l !in fs.nodes && !n.Symlink?
    requires Walk(fs, at, comps, hops, follow).Ok?
    ensures Walk(AddNode(fs, l, n), at, comps, hops, follow) == Walk(fs, at, comps, hops, follow)
    decreases hops, |comps|
  {
    var fs2 := AddNode(fs, l, n);
    if |comps| > 0 {
      assert IsDirAt(fs2, at);
      var c := comps[0];
      if c == "." {
        WalkAdd(fs, l, n, at, comps[1..], hops, follow);
      } else if c == ".." {
        WalkAdd(fs, l, n, Parent(at), comps[1..], hops, follow);
      } else {
        var child := at + [c];
        if child in fs.nodes && fs.nodes[child].Symlink? && (|comps| > 1 || follow) {
          assert fs2.nodes[child] == fs.nodes[child];
          var target := fs.nodes[child].target;
          var start := if IsAbsolute(target) then [] else at;
          WalkAdd(fs, l, n, start, Segments(target), hops - 1, true);
          var inner := Walk(fs, start, Segments(target), hops - 1, true);
          WalkAdd(fs, l, n, inner.value.0, comps[1..], inner.value.1, follow);
        } else if |comps| > 1 {
          assert child != l && child in fs2.nodes && !fs2.nodes[child].Symlink?;
          WalkAdd(fs, l, n, child, comps[1..], hops, follow);
        } else {
          assert (child in fs2.nodes && fs2.nodes[child].Symlink?) == (child in fs.nodes && fs.nodes[child].Symlink?);
        }
      }
    }
  }

  /** Whether the last link is followed does not matter when the walk does not end on a link. */
  lemma {:induction false} FollowLastIrrelevant(fs: FileSystem, at: Loc, comps: seq<Name>, hops: nat)
    requires Walk(fs, at, comps, hops, false).Ok?
    requires NotLink(fs, Walk(fs, at, comps, hops, false).value.0)
    ensures Walk(fs, at, comps, hops, true) == Walk(fs, at, comps, hops, false)
    decreases hops, |comps|
  {
    if |comps| > 0 {
      var c := comps[0];
      if c == "." {
        FollowLastIrrelevant(fs, at, comps[1..], hops);
      } else if c == ".." {
        FollowLastIrrelevant(fs, Parent(at), comps[1..], hops);
      } else {
        var child := at + [c];
        if child in fs.nodes && fs.nodes[child].Symlink? && |comps| > 1 {
          var target := fs.nodes[child].target;
          var inner := Walk(fs, if IsAbsolute(target) then [] else at, Segments(target), hops - 1, true);
          FollowLastIrrelevant(fs, inner.value.0, comps[1..], inner.value.1);
        } else if |comps| > 1 {
          FollowLastIrrelevant(fs, child, comps[1..], hops);
        }
      }
    }
  }

  /** After a successful `mkdir`, `stat` of the same path finds the new, empty directory. */
  lemma StatAfterMkdir(fs: FileSystem, path: string, mode: nat, denied: bool)
    requires Mkdir(fs, path, mode, denied).Ok?
    ensures Stat(Mkdir(fs, path, mode, denied).value, path) == Ok(Dir(mode, []))
  {
    var l := Locate(fs, path, false).value;
    var fs2 := AddNode(fs, l, Dir(mode, []));
    var start := if IsAbsolute(path) then [] else fs.cwd;
    WalkAdd(fs, l, Dir(mode, []), start, Segments(path), MaxSymlinkHops, false);
    FollowLastIrrelevant(fs2, start, Segments(path), MaxSymlinkHops);
  }

  /**
   * What the copy engine may do to a node: a directory keeps its mode and
   * its entries (new ones are appended), a regular file keeps its mode (its
   * data may be replaced), links and special files stay as they are.
   */
  predicate SameKind(a: Node, b: Node)
  {
    match a
    case Dir(m, c) => b.Dir? && b.mode == m && c <= b.children
    case File(m, _) => b.File? && b.mode == m
    case Symlink(_) => b == a
    case Other(_) => b == a
  }

  /** `fs2` keeps every node of `fs`, each of the same kind, and the working directory. */
  ghost predicate Extends(fs: FileSystem, fs2: FileSystem)
  {
    && fs2.cwd == fs.cwd
    && forall l :: l in fs.nodes ==> l in fs2.nodes && SameKind(fs.nodes[l], fs2.nodes[l])
  }

  lemma ExtendsRefl(fs: FileSystem)
    ensures Extends(fs, fs)
  {
    forall l | l in fs.nodes ensures SameKind(fs.nodes[l], fs.nodes[l]) {
      var n := fs.nodes[l];
      if n.Dir? {
        assert n.children <= n.children;
      }
    }
  }

  lemma ExtendsTrans(a: FileSystem, b: FileSystem, c: FileSystem)
    requires Extends(a, b) && Extends(b, c)
    ensures Extends(a, c)
  {
    forall l | l in a.nodes ensures l in c.nodes && SameKind(a.nodes[l], c.nodes[l]) {
      assert SameKind(a.nodes[l], b.nodes[l]) && SameKind(b.nodes[l], c.nodes[l]);
    }
  }

  /** Adding a node under an existing directory keeps every node and keeps the filesystem well-formed. */
  lemma AddNodeExtends(fs: FileSystem, l: Loc, n: Node)
    requires |l| > 0 && IsDirAt(fs, Parent(l)) && l !in fs.nodes
    ensures Extends(fs, AddNode(fs, l, n))
    ensures Wf(fs) ==> Wf(AddNode(fs, l, n))
  {
    var fs2 := AddNode(fs, l, n);
    forall k | k in fs.nodes ensures k in fs2.nodes && SameKind(fs.nodes[k], fs2.nodes[k]) {
      if k == Parent(l) {
        var d := fs.nodes[k];
        assert d.children <= d.children + [l[|l| - 1]];
      } else {
        assert fs2.nodes[k] == fs.nodes[k];
        ExtendsRefl(fs);
      }
    }
    if Wf(fs) {
      assert forall k :: k in fs2.nodes ==> k == l || k in fs.nodes;
    }
  }

  /** Replacing the data of a regular file keeps every node and well-formedness. */
  lemma SetFileExtends(fs: FileSystem, l: Loc, data: seq<Byte>)
    requires l in fs.nodes && fs.nodes[l].File?
    ensures Extends(fs, fs.(nodes := fs.nodes[l := File(fs.nodes[l].mode, data)]))
    ensures Wf(fs) ==> Wf(fs.(nodes := fs.nodes[l := File(fs.nodes[l].mode, data)]))
  {
    var fs2 := fs.(nodes := fs.nodes[l := File(fs.nodes[l].mode, data)]);
    forall k | k in fs.nodes ensures k in fs2.nodes && SameKind(fs.nodes[k], fs2.nodes[k]) {
      if k != l {
        ExtendsRefl(fs);
      }
    }
  }

  lemma MkdirExtends(fs: FileSystem, path: string, mode: nat, denied: bool)
    requires Mkdir(fs, path, mode, denied).Ok?
    ensures Extends(fs, Mkdir(fs, path, mode, denied).value)
    ensures Wf(fs) ==> Wf(Mkdir(fs, path, mode, denied).value)
  {
    AddNodeExtends(fs, Locate(fs, path, false).value, Dir(mode, []));
  }

  lemma OpenWriteExtends(fs: FileSystem, path: string, mode: nat, denied: bool)
    requires OpenWrite(fs, path, mode, denied).Ok?
    ensures Extends(fs, OpenWrite(fs, path, mode, denied).value.0)
    ensures Wf(fs) ==> Wf(OpenWrite(fs, path, mode, denied).value.0)
  {
    var l := Locate(fs, path, true).value;
    if l in fs.nodes {
      SetFileExtends(fs, l, []);
    } else {
      AddNodeExtends(fs, l, File(mode, []));
    }
  }

  /**
   * A walk that succeeds and ends on an existing node is unchanged by any
   * extension of the filesystem: every directory and link it met is still
   * there, of the same kind.
   */
  lemma {:induction false} WalkStable(fs: FileSystem, fs2: FileSystem, at: Loc, comps: seq<Name>, hops: nat, follow: bool)
    requires Extends(fs, fs2)
    requires Walk(fs, at, comps, hops, follow).Ok? && Walk(fs, at, comps, hops, follow).value.0 in fs.nodes
    ensures Walk(fs2, at, comps, hops, follow) == Walk(fs, at, comps, hops, follow)
    decreases hops, |comps|
  {
    if |comps| > 0 {
      assert IsDirAt(fs, at) && SameKind(fs.nodes[at], fs2.nodes[at]);
      var c := comps[0];
      if c == "." {
        WalkStable(fs, fs2, at, comps[1..], hops, follow);
      } else if c == ".." {
        WalkStable(fs, fs2, Parent(at), comps[1..], hops, follow);
      } else {
        var child := at + [c];
        assert child in fs.nodes;
        assert SameKind(fs.nodes[child], fs2.nodes[child]);
        assert fs2.nodes[child].Symlink? == fs.nodes[child].Symlink?;
        if fs.nodes[child].Symlink? && (|comps| > 1 || follow) {
          var target := fs.nodes[child].target;
          var start := if IsAbsolute(target) then [] else at;
          var inner := Walk(fs, start, Segments(target), hops - 1, true);
          var (l, left) := inner.value;
          if |comps| > 1 {
            assert comps[1..] != [];
            assert IsDirAt(fs, l);
          }
          WalkStable(fs, fs2, start, Segments(target), hops - 1, true);
          WalkStable(fs, fs2, l, comps[1..], left, follow);
        } else if |comps| > 1 {
          WalkStable(fs, fs2, child, comps[1..], hops, follow);
        }
      }
    }
  }

  /** What `stat` finds stays found, of the same kind, in any extension of the filesystem. */
  lemma StatStable(fs: FileSystem, fs2: FileSystem, path: string)
    requires Extends(fs, fs2) && Stat(fs, path).Ok?
    ensures Locate(fs2, path, true) == Locate(fs, path, true)
    ensures Stat(fs2, path).Ok? && SameKind(Stat(fs, path).value, Stat(fs2, path).value)
  {
    WalkStable(fs, fs2, if IsAbsolute(path) then [] else fs.cwd, Segments(path), MaxSymlinkHops, true);
  }

  /** `SameKind` composes. */
  lemma SameKindTrans(a: Node, b: Node, c: Node)
    requires SameKind(a, b) && SameKind(b, c)
    ensures SameKind(a, c)
  {
  }

  /**
   * `dir + "/" + name` leads to the entry `name` of the directory `dir`
   * leads to, when that entry is not a link.
   */
  lemma ChildPathLeadsToChild(fs: FileSystem, dir: string, name: Name, l: Loc)
    requires |dir| > 0 && Locate(fs, dir, true) == Ok(l) && IsDirAt(fs, l)
    requires name != "." && name != ".." && NotLink(fs, l + [name])
    ensures Locate(fs, dir + "/" + name, true) == Ok(l + [name])
  {
    var start := if IsAbsolute(dir) then [] else fs.cwd;
    assert (dir + "/" + name)[0] == dir[0];
    SegmentsChild(dir, name);
    var left := Walk(fs, start, Segments(dir), MaxSymlinkHops, true).value.1;
    WalkAppend(fs, start, Segments(dir), [name], MaxSymlinkHops, true);
    assert [name][1..] == [];
  }

  /**
   * Walking `a + b` is walking `a`, every link on it followed, then `b`
   * from where `a` ended.
   */
  lemma {:induction false} WalkAppend(fs: FileSystem, at: Loc, a: seq<Name>, b: seq<Name>, hops: nat, follow: bool)
    requires |b| > 0
    ensures Walk(fs, at, a + b, hops, follow) ==
      match Walk(fs, at, a, hops, true)
      case Err(e) => Err(e)
      case Ok((l, left)) => Walk(fs, l, b, left, follow)
    decreases hops, |a|
  {
    if |a| > 0 {
      assert (a + b)[0] == a[0] && (a + b)[1..] == a[1..] + b;
      if IsDirAt(fs, at) {
        var c := a[0];
        if c == "." {
          WalkAppend(fs, at, a[1..], b, hops, follow);
        } else if c == ".." {
          WalkAppend(fs, Parent(at), a[1..], b, hops, follow);
        } else {
          var child := at + [c];
          if child in fs.nodes && fs.nodes[child].Symlink? {
            var target := fs.nodes[child].target;
            if hops > 0 && |target| > 0 {
              var inner := Walk(fs, if IsAbsolute(target) then [] else at, Segments(target), hops - 1, true);
              if inner.Ok? {
                WalkAppend(fs, inner.value.0, a[1..], b, inner.value.1, follow);
              }
            }
          } else if |a| > 1 && child in fs.nodes {
            WalkAppend(fs, child, a[1..], b, hops, follow);
          } else if |a| == 1 {
            assert a[1..] + b == b;
          }
        }
      }
    } else {
      assert a + b == b;
    }
  }
}
