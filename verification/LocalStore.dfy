/** The content-addressed directory tree of data-service. A path is its list of segments below a
    root, `[]`: the file-system root "/" when `baseDir` is absolute, and the working directory "." when
    it is relative, as the default "data" is. The clean-up walk stops at either. */
module LocalStore {
  import opened Results

  type Path = seq<string>

  // ---------------------------------------------------------------- trees

  datatype Tree = Tree(files: map<Path, string>, dirs: set<Path>) {
    predicate Has(p: Path) { p in files || p in dirs }
  }

  function Parent(p: Path): Path
    requires p != []
  {
    p[..|p| - 1]
  }

  /** Every entry's parent is a directory, and nothing is both file and directory. */
  ghost predicate WellFormed(t: Tree) {
    && [] in t.dirs
    && (forall d <- t.dirs | d != [] :: Parent(d) in t.dirs)
    && (forall f <- t.files :: f != [] && f !in t.dirs && Parent(f) in t.dirs)
  }

  predicate IsChild(q: Path, d: Path) {
    q != [] && Parent(q) == d
  }

  ghost predicate IsEmpty(t: Tree, d: Path) {
    forall q | t.Has(q) :: !IsChild(q, d)
  }

  lemma {:induction false} AncestorsExist(t: Tree, q: Path, k: nat)
    requires WellFormed(t) && t.Has(q) && k < |q|
    ensures q[..k] in t.dirs
    decreases |q|
  {
    assert Parent(q) in t.dirs;
    if k < |q| - 1 {
      AncestorsExist(t, Parent(q), k);
      assert Parent(q)[..k] == q[..k];
    } else {
      assert q[..k] == Parent(q);
    }
  }

  // ---------------------------------------------------------------- the file system

  /** `Panicked`: the slice of a hash shorter than four bytes. */
  datatype RemoveError = NotExist | NotEmpty | Denied | Panicked

  class FileSystem {
    var files: map<Path, string>
    var dirs: set<Path>

    constructor (t: Tree)
      ensures Current() == t
    {
      files, dirs := t.files, t.dirs;
    }

    ghost function Current(): Tree
      reads this
    {
      Tree(files, dirs)
    }

    /** `os.Remove`: a file, or an empty directory, unless the system refuses for a reason of its own. */
    method Remove(p: Path, refused: bool) returns (error: Option<RemoveError>)
      modifies this
      ensures refused ==> error == Some(Denied) && Current() == old(Current())
      ensures !refused && p in old(files) ==> error.None? && files == old(files) - {p} && dirs == old(dirs)
      ensures !refused && p !in old(files) && p in old(dirs) && IsEmpty(old(Current()), p) && p != [] ==>
        error.None? && files == old(files) && dirs == old(dirs) - {p}
      ensures !refused && p !in old(files) && p in old(dirs) && !IsEmpty(old(Current()), p) ==>
        error == Some(NotEmpty) && Current() == old(Current())
      ensures !refused && p !in old(files) && p !in old(dirs) ==> error == Some(NotExist) && Current() == old(Current())
    {
      if refused {
        return Some(Denied);
      }
      if p in files {
        files := files - {p};
        return None;
      }
      if p !in dirs {
        return Some(NotExist);
      }
      if (exists q <- dirs :: IsChild(q, p)) || (exists q <- files.Keys :: IsChild(q, p)) {
        return Some(NotEmpty);
      }
      dirs := dirs - {p};
      return None;
    }

    /** `os.Remove` where the caller has just created the file. */
    method RemoveFile(p: Path)
      requires p in files
      modifies this
      ensures files == old(files) - {p} && dirs == old(dirs)
    {
      var _ := Remove(p, false);
    }

    /** `os.Rename` of a file: replaces what was there. */
    method Rename(from: Path, to: Path)
      requires from in files
      modifies this`files
      ensures files == (old(files) - {from})[to := old(files)[from]]
    {
      files := (files - {from})[to := files[from]];
    }
  }

  // ---------------------------------------------------------------- sharded paths

  predicate HexDigit(c: char) {
    '0' <= c <= '9' || 'a' <= c <= 'f'
  }

  /** What `Write` returns: lower-case hexadecimal, long enough to shard. */
  predicate BlobHash(h: string) {
    |h| >= 4 && forall c <- h :: HexDigit(c)
  }

  /** `filepath.Join` of plain segments. */
  function ShardedPath(base: Path, namespace: string, hash: string): (p: Path)
    requires |hash| >= 4
    ensures |p| == |base| + 5 && base <= p
  {
    base + [namespace, "objects", hash[0..2], hash[2..4], hash]
  }

  /** Two levels of two characters each, and the whole hash again as the file name. */
  lemma ShardedPathParts(base: Path, namespace: string, hash: string)
    requires |hash| >= 4
    ensures ShardedPath(base, namespace, hash)
         == base + [namespace] + ["objects"] + [[hash[0], hash[1]]] + [[hash[2], hash[3]]] + [hash]
  {
    assert hash[0..2] == [hash[0], hash[1]] && hash[2..4] == [hash[2], hash[3]];
  }

  lemma ShardedPathInjective(base: Path, n1: string, h1: string, n2: string, h2: string)
    requires |h1| >= 4 && |h2| >= 4 && ShardedPath(base, n1, h1) == ShardedPath(base, n2, h2)
    ensures n1 == n2 && h1 == h2
  {
    var p := ShardedPath(base, n1, h1);
    assert p[|base|] == n1 && p[|base|] == n2 && p[|base| + 4] == h1 && p[|base| + 4] == h2;
  }

  function StopPath(base: Path): Path {
    base + ["objects"]
  }

  /** The directories that deleting `path` leaves empty: those above it with nothing below them but
      the way to it. The walk starts only if the directory of `path` exists, and stops at `StopPath`
      when that lies on the way, which it does in the namespace "objects" alone. */
  ghost predicate LeftEmpty(t: Tree, base: Path, path: Path, d: Path)
    requires path != []
  {
    && Parent(path) in t.dirs
    && d != [] && d <= Parent(path)
    && (StopPath(base) <= Parent(path) ==> |StopPath(base)| < |d|)
    && forall q | t.Has(q) && d <= q :: q <= path
  }

  /** No removal on the way from the blob up to `d` is refused. */
  ghost predicate Unhindered(held: set<Path>, path: Path, d: Path)
    requires path != []
  {
    forall h <- held :: !(d <= h && h <= Parent(path))
  }

  /** What the walk removes when the system refuses to remove the directories in `held`. */
  ghost function EmptiedDirs(t: Tree, base: Path, path: Path, held: set<Path>): set<Path>
    requires path != []
  {
    set d <- t.dirs | LeftEmpty(t, base, path, d) && Unhindered(held, path, d)
  }

  // ---------------------------------------------------------------- the store

  datatype WriteFault = NoFault | CreateFails | CopyFails | MkdirFails(made: nat) | RenameFails

  class Store {
    const fs: FileSystem
    const base: Path
    const hash: string -> string

    constructor (fs: FileSystem, base: Path, hash: string -> string)
      ensures this.fs == fs && this.base == base && this.hash == hash
    {
      this.fs, this.base, this.hash := fs, base, hash;
    }

    /** Below `base` there are temporary files in tmp, blobs five levels down, and directories above them. */
    ghost predicate Placed(t: Tree) {
      && (forall d <- t.dirs | base <= d :: |d| <= |base| + 4)
      && (forall f <- t.files | base <= f ::
            |f| == |base| + 5 || (|f| == |base| + 2 && f[|base|] == "tmp" && f[|base| + 1] != "objects"))
    }

    ghost predicate InOrder(t: Tree) {
      WellFormed(t) && Placed(t) && base in t.dirs && base + ["tmp"] in t.dirs
    }

    ghost predicate Valid()
      reads fs
    {
      InOrder(fs.Current()) && forall x :: BlobHash(hash(x))
    }

    method Read(namespace: string, h: string) returns (r: Option<string>)
      ensures r.Some? <==> |h| >= 4 && ShardedPath(base, namespace, h) in fs.files
      ensures r.Some? ==> r.value == fs.files[ShardedPath(base, namespace, h)]
    {
      if |h| < 4 {
        return None;
      }
      var path := ShardedPath(base, namespace, h);
      if path !in fs.files {
        return None;
      }
      return Some(fs.files[path]);
    }

    /** `cleanUpEmptyDirs`. `t` is the tree before the blob at `path` was removed; the system refuses to
        remove the directories in `held`. */
    method CleanUpEmptyDirs(leaf: Path, held: set<Path>, ghost path: Path, ghost t: Tree)
      requires WellFormed(t) && path != [] && leaf == Parent(path) && path !in t.dirs && leaf !in t.files
      requires fs.files == t.files - {path} && fs.dirs == t.dirs
      modifies fs
      ensures fs.files == t.files - {path}
      ensures fs.dirs == t.dirs - EmptiedDirs(t, base, path, held)
    {
      var objectsDir := base + ["objects"];
      var dir := leaf;
      while dir != objectsDir && dir != []
        invariant Walked(t, base, path, held, dir, fs.Current())
        decreases |dir|
      {
        WalkStep(t, base, path, held, dir, fs.Current());
        var error := fs.Remove(dir, dir in held);
        if error.Some? {
          break;
        }
        dir := Parent(dir);
      }
      WalkDone(t, base, path, held, dir, fs.Current());
    }

    method Delete(namespace: string, h: string, denied: bool, held: set<Path>) returns (error: Option<RemoveError>)
      requires Valid()
      modifies fs
      ensures |h| < 4 ==> error == Some(Panicked) && fs.Current() == old(fs.Current())
      ensures |h| >= 4 && denied ==> error == Some(Denied) && fs.Current() == old(fs.Current())
      ensures |h| >= 4 && !denied ==>
        var path := ShardedPath(base, namespace, h);
        && error.None?
        && fs.files == old(fs.files) - {path}
        && fs.dirs == old(fs.dirs) - EmptiedDirs(old(fs.Current()), base, path, held)
      ensures namespace != "tmp" ==> Valid()
    {
      if |h| < 4 {
        return Some(Panicked);
      }
      var path := ShardedPath(base, namespace, h);
      ghost var t := fs.Current();
      assert path !in fs.dirs;
      var removed := fs.Remove(path, denied);
      if removed.Some? && removed.value != NotExist {
        return removed;
      }
      assert fs.files == t.files - {path};
      CleanUpEmptyDirs(path[..|path| - 1], held, path, t);
      EmptiedKeepsWellFormed(t, base, path, held, fs.Current());
      if namespace != "tmp" {
        BaseSurvives(t, base, namespace, h, held);
      }
      return None;
    }

    /** `Write`: a temporary file, then a rename into place. Only a failed rename leaves it behind. */
    method Write(namespace: string, body: string, tmpName: string, fault: WriteFault) returns (r: Option<(string, nat)>)
      requires Valid()
      requires !fs.Current().Has(base + ["tmp", tmpName]) && tmpName != "objects"
      modifies fs
      ensures Valid()
      ensures r.Some? <==> fault.NoFault?
      ensures r.Some? ==>
        && r.value == (hash(body), |body|)
        && fs.files == old(fs.files)[ShardedPath(base, namespace, hash(body)) := body]
        && fs.dirs == old(fs.dirs) + Ancestors(ShardedPath(base, namespace, hash(body)))
      ensures r.None? ==> fs.files == if fault.RenameFails? then old(fs.files)[base + ["tmp", tmpName] := body] else old(fs.files)
    {
      var tmp := base + ["tmp", tmpName];
      ghost var t := fs.Current();
      if fault.CreateFails? {
        return None;
      }
      fs.files := fs.files[tmp := body];
      if fault.CopyFails? {
        fs.RemoveFile(tmp);
        assert fs.Current() == t;
        return None;
      }
      TempKeepsOrder(t, tmpName, body);
      var path := ShardedPath(base, namespace, hash(body));
      var published := Publish(path, tmp, body, fault, t);
      if !published {
        return None;
      }
      return Some((hash(body), |body|));
    }

    /** The second half of `Write`: make the directories, then rename the temporary file. */
    method Publish(path: Path, tmp: Path, body: string, fault: WriteFault, ghost t: Tree) returns (ok: bool)
      requires InOrder(t) && InOrder(fs.Current())
      requires tmp !in t.files && fs.Current() == t.(files := t.files[tmp := body])
      requires |path| == |base| + 5 && base <= path && path[|base| + 1] == "objects" && tmp != path
      modifies fs
      ensures InOrder(fs.Current())
      ensures ok <==> !fault.MkdirFails? && !fault.RenameFails?
      ensures ok ==> fs.files == t.files[path := body] && fs.dirs == t.dirs + Ancestors(path)
      ensures !ok ==> fs.files == if fault.RenameFails? then t.files[tmp := body] else t.files
    {
      MkdirKeepsOrder(fs.Current(), path, |path|);
      if fault.MkdirFails? {
        MkdirKeepsOrder(t, path, fault.made);
        fs.dirs := fs.dirs + FirstAncestors(path, fault.made);
        fs.RemoveFile(tmp);
        assert fs.Current() == t.(dirs := t.dirs + FirstAncestors(path, fault.made));
        return false;
      }
      fs.dirs := fs.dirs + Ancestors(path);
      if fault.RenameFails? {
        return false;
      }
      MkdirKeepsOrder(t, path, |path|);
      BlobKeepsOrder(t.(dirs := fs.dirs), path, body);
      fs.Rename(tmp, path);
      assert fs.files == t.files[path := body];
      return true;
    }

    lemma TempKeepsOrder(t: Tree, tmpName: string, body: string)
      requires InOrder(t) && !t.Has(base + ["tmp", tmpName]) && tmpName != "objects"
      ensures InOrder(t.(files := t.files[base + ["tmp", tmpName] := body]))
    {
      assert Parent(base + ["tmp", tmpName]) == base + ["tmp"];
    }

    lemma BlobKeepsOrder(t: Tree, path: Path, body: string)
      requires InOrder(t) && |path| == |base| + 5 && base <= path && Ancestors(path) <= t.dirs
      ensures InOrder(t.(files := t.files[path := body]))
    {
    }

    /** Making directories on the way to a blob keeps the tree in order. */
    lemma MkdirKeepsOrder(t: Tree, path: Path, n: nat)
      requires InOrder(t)
      requires |path| == |base| + 5 && base <= path && path[|base| + 1] == "objects"
      ensures InOrder(t.(dirs := t.dirs + FirstAncestors(path, n)))
    {
      var t' := t.(dirs := t.dirs + FirstAncestors(path, n));
      forall d | d in FirstAncestors(path, n)
        ensures d !in t.files && (d != [] ==> Parent(d) in t'.dirs) && (base <= d ==> |d| <= |base| + 4)
      {
        var k :| 0 <= k < n && k < |path| && d == path[..k];
        if k > 0 {
          assert Parent(d) == path[..k - 1];
        }
        if k < |base| {
          AncestorsExist(t, base, k);
          assert base[..k] == d;
        } else if k == |base| {
          assert d == base;
        }
      }
    }
  }

  /** The first `n` directories on the way to `path`, from the root. */
  function FirstAncestors(path: Path, n: nat): set<Path> {
    set k | 0 <= k < n && k < |path| :: path[..k]
  }

  function Ancestors(path: Path): set<Path> {
    FirstAncestors(path, |path|)
  }

  // ---------------------------------------------------------------- the walk

  /** The walk stands at `dir`: everything on the way below it was left empty, and is gone. */
  ghost predicate Walked(t: Tree, base: Path, path: Path, held: set<Path>, dir: Path, now: Tree)
    requires path != []
  {
    var leaf := Parent(path);
    && dir <= leaf
    && now.files == t.files - {path}
    && (forall d :: d in now.dirs <==> d in t.dirs && !(d <= leaf && |dir| < |d|))
    && (forall k | |dir| < k <= |leaf| :: leaf[..k] in t.dirs && LeftEmpty(t, base, path, leaf[..k]))
    && (StopPath(base) <= leaf ==> |StopPath(base)| <= |dir|)
    && (forall h <- held | h <= leaf :: |h| <= |dir|)
  }

  lemma SamePrefix(a: Path, b: Path, p: Path)
    requires a <= p && b <= p && |a| == |b|
    ensures a == b
  {
  }

  /** If what remains of `dir` is empty, it was left empty by the deletion. */
  lemma WalkStep(t: Tree, base: Path, path: Path, held: set<Path>, dir: Path, now: Tree)
    requires WellFormed(t) && path != [] && path !in t.dirs && Parent(path) !in t.files
    requires Walked(t, base, path, held, dir, now) && dir != StopPath(base) && dir != []
    ensures dir !in now.files
    ensures dir in t.dirs && IsEmpty(now, dir) && dir !in held ==>
      LeftEmpty(t, base, path, dir) && Walked(t, base, path, held, Parent(dir), now.(dirs := now.dirs - {dir}))
  {
    var leaf := Parent(path);
    if dir != leaf {
      var child := leaf[..|dir| + 1];
      assert child in t.dirs && Parent(child) == dir;
    }
    if StopPath(base) <= leaf && |StopPath(base)| == |dir| {
      SamePrefix(StopPath(base), dir, leaf);
    }
    if dir in t.dirs && IsEmpty(now, dir) && dir !in held {
      forall q | t.Has(q) && dir <= q
        ensures q <= path
      {
        EmptyMeansOnTheWay(t, base, path, held, dir, now, q);
      }
      assert leaf[..|leaf|] == leaf;
      WalkUp(t, base, path, held, dir, now);
    }
  }

  lemma EmptyMeansOnTheWay(t: Tree, base: Path, path: Path, held: set<Path>, dir: Path, now: Tree, q: Path)
    requires WellFormed(t) && path != [] && path !in t.dirs && Walked(t, base, path, held, dir, now)
    requires IsEmpty(now, dir) && t.Has(q) && dir <= q
    ensures q <= path
  {
    var leaf := Parent(path);
    if |q| > |dir| {
      var c := q[..|dir| + 1];
      assert Parent(c) == dir;
      if |q| == |dir| + 1 {
        assert c == q;
      } else {
        AncestorsExist(t, q, |dir| + 1);
      }
      assert t.Has(c) && !now.Has(c);
      if c != path {
        assert c <= leaf;
        assert leaf[..|c|] == c;
        assert LeftEmpty(t, base, path, c);
        assert c <= q;
      }
    } else {
      assert q == dir;
    }
  }

  lemma WalkUp(t: Tree, base: Path, path: Path, held: set<Path>, dir: Path, now: Tree)
    requires path != [] && Walked(t, base, path, held, dir, now) && dir != [] && dir in t.dirs
    requires LeftEmpty(t, base, path, dir) && dir !in held
    ensures Walked(t, base, path, held, Parent(dir), now.(dirs := now.dirs - {dir}))
  {
    var leaf := Parent(path);
    var now' := now.(dirs := now.dirs - {dir});
    forall d
      ensures d in now'.dirs <==> d in t.dirs && !(d <= leaf && |Parent(dir)| < |d|)
    {
      if d <= leaf && |d| == |dir| {
        SamePrefix(d, dir, leaf);
      }
    }
    forall h | h in held && h <= leaf
      ensures |h| <= |Parent(dir)|
    {
      if |h| == |dir| {
        SamePrefix(h, dir, leaf);
      }
    }
    forall k | |Parent(dir)| < k <= |leaf|
      ensures leaf[..k] in t.dirs && LeftEmpty(t, base, path, leaf[..k])
    {
      if k == |dir| {
        assert leaf[..k] == dir;
      }
    }
  }

  /** When the walk stops, everything left empty is gone and nothing else. */
  lemma WalkDone(t: Tree, base: Path, path: Path, held: set<Path>, dir: Path, now: Tree)
    requires WellFormed(t) && path != [] && path !in t.dirs && Walked(t, base, path, held, dir, now)
    requires dir == StopPath(base) || dir == [] || dir !in now.dirs || !IsEmpty(now, dir) || dir in held
    ensures now.dirs == t.dirs - EmptiedDirs(t, base, path, held)
  {
    var leaf := Parent(path);
    forall d | d in t.dirs
      ensures d in EmptiedDirs(t, base, path, held) <==> d <= leaf && |dir| < |d|
    {
      if d <= leaf && |dir| < |d| {
        assert leaf[..|d|] == d;
      }
      if d <= leaf && |d| <= |dir| && LeftEmpty(t, base, path, d) && dir !in held {
        NotLeftEmptyAbove(t, base, path, held, dir, now, d);
      }
    }
  }

  lemma PrefixCases(q: Path, path: Path)
    requires path != []
    ensures q <= path <==> q == path || (q <= Parent(path) && q == Parent(path)[..|q|])
  {
  }

  lemma ChildOffTheWay(t: Tree, base: Path, path: Path, held: set<Path>, dir: Path, now: Tree, q: Path)
    requires WellFormed(t) && path != [] && path !in t.dirs && Walked(t, base, path, held, dir, now)
    requires now.Has(q) && IsChild(q, dir)
    ensures !(q <= path)
  {
    PrefixCases(q, path);
    assert |q| <= |Parent(path)| ==> Parent(path)[..|q|] in t.dirs;
  }

  lemma NotLeftEmptyAbove(t: Tree, base: Path, path: Path, held: set<Path>, dir: Path, now: Tree, d: Path)
    requires WellFormed(t) && path != [] && path !in t.dirs && Walked(t, base, path, held, dir, now)
    requires dir == StopPath(base) || dir == [] || dir !in now.dirs || !IsEmpty(now, dir)
    requires d <= Parent(path) && |d| <= |dir|
    ensures !LeftEmpty(t, base, path, d)
  {
    var leaf := Parent(path);
    assert d <= dir;
    if dir != StopPath(base) && dir != [] && leaf in t.dirs {
      if dir != leaf {
        AncestorsExist(t, leaf, |dir|);
        assert leaf[..|dir|] == dir;
      }
      assert dir in now.dirs;
      var q :| now.Has(q) && IsChild(q, dir);
      ChildOffTheWay(t, base, path, held, dir, now, q);
      assert t.Has(q) && d <= q;
    }
  }

  /** Deleting keeps the tree well formed. */
  lemma EmptiedKeepsWellFormed(t: Tree, base: Path, path: Path, held: set<Path>, now: Tree)
    requires WellFormed(t) && path != [] && path !in t.dirs
    requires now == Tree(t.files - {path}, t.dirs - EmptiedDirs(t, base, path, held))
    ensures WellFormed(now)
  {
    forall q | now.Has(q) && q != []
      ensures Parent(q) in now.dirs
    {
      assert t.Has(q) && Parent(q) in t.dirs;
      if LeftEmpty(t, base, path, Parent(q)) {
        EmptiedHasNoOtherChild(t, base, path, q);
      }
    }
  }

  lemma EmptiedHasNoOtherChild(t: Tree, base: Path, path: Path, q: Path)
    requires WellFormed(t) && path != [] && path !in t.dirs && t.Has(q) && q != []
    requires LeftEmpty(t, base, path, Parent(q))
    ensures q == path || (q in t.dirs && LeftEmpty(t, base, path, q))
  {
    var leaf := Parent(path);
    assert Parent(q) <= q;
    assert q <= path;
    if q != path {
      assert q <= leaf && leaf[..|q|] == q;
      if |q| < |leaf| {
        AncestorsExist(t, leaf, |q|);
      } else {
        assert q == leaf;
      }
      assert |Parent(q)| < |q|;
      forall p | t.Has(p) && q <= p
        ensures p <= path
      {
        assert Parent(q) <= p;
      }
    }
  }

  /** Which directories a deletion removes, for every namespace: those on the way to the blob, if its own
      directory exists, with nothing below them but that way, up to the first refused removal; in the
      namespace "objects" only those below it. */
  lemma EmptiedExactly(t: Tree, base: Path, namespace: string, h: string, held: set<Path>, d: Path)
    requires |h| >= 4
    ensures var path := ShardedPath(base, namespace, h);
            d in EmptiedDirs(t, base, path, held)
            <==> && d in t.dirs && d != [] && d < path && path[..|path| - 1] in t.dirs
                 && (forall q | t.Has(q) && d <= q :: q <= path)
                 && (forall r <- held :: d <= r ==> !(r < path))
                 && (namespace == "objects" ==> |d| > |base| + 1)
  {
    var path := ShardedPath(base, namespace, h);
    StopPathOnTheWay(base, namespace, h);
    AboveFile(path, d);
    forall r | r in held
      ensures r < path <==> r <= Parent(path)
    {
      AboveFile(path, r);
    }
  }

  lemma AboveFile(path: Path, r: Path)
    requires path != []
    ensures r < path <==> r <= Parent(path)
  {
    if r < path {
      assert r == Parent(path)[..|r|];
    }
  }

  // ---------------------------------------------------------------- the base directory

  /** Outside the namespace "tmp" neither the base directory nor tmp nor anything above is removed:
      the base always holds tmp, which is not on the way. */
  lemma BaseSurvives(t: Tree, base: Path, namespace: string, h: string, held: set<Path>)
    requires namespace != "tmp" && |h| >= 4 && base + ["tmp"] in t.dirs
    ensures forall d <- EmptiedDirs(t, base, ShardedPath(base, namespace, h), held) :: |base| < |d| && d != base + ["tmp"]
  {
    var path, tmp := ShardedPath(base, namespace, h), base + ["tmp"];
    assert path[|base|] == namespace && tmp[|base|] == "tmp";
    forall d | d in EmptiedDirs(t, base, path, held)
      ensures |base| < |d| && d != tmp
    {
      if |d| <= |base| {
        assert d <= base && d <= tmp;
        assert t.Has(tmp);
      }
      assert d <= path;
    }
  }

  /** In the namespace "tmp" the temporary directory, the base and whatever is above them are removed as
      soon as they hold nothing but the way to the blob. */
  lemma TmpNamespaceRemovesBase(t: Tree, base: Path, h: string, d: Path, held: set<Path>)
    requires |h| >= 4 && d in t.dirs && d != [] && d <= base + ["tmp"]
    ensures var path := ShardedPath(base, "tmp", h);
            d in EmptiedDirs(t, base, path, held)
            <==> Parent(path) in t.dirs && Unhindered(held, path, d) && forall q | t.Has(q) && d <= q :: q <= path
  {
    var path, tmp := ShardedPath(base, "tmp", h), base + ["tmp"];
    assert tmp <= Parent(path);
    assert Parent(path)[|base|] == "tmp" && StopPath(base)[|base|] == "objects";
  }

  /** The walk can meet its stop path in the namespace "objects" and in no other. */
  lemma StopPathOnTheWay(base: Path, namespace: string, h: string)
    requires |h| >= 4
    ensures StopPath(base) <= Parent(ShardedPath(base, namespace, h)) <==> namespace == "objects"
  {
    var leaf := Parent(ShardedPath(base, namespace, h));
    assert leaf[|base|] == namespace && StopPath(base)[|base|] == "objects";
    if namespace == "objects" {
      assert leaf[..|base| + 1] == StopPath(base);
    }
  }
}
