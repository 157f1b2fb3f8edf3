/**
  * A snapshot of the storage tree, keyed by the path strings main.py
  * builds. A directory records the names `os.listdir` returns, in the
  * order it returns them; anything that is neither a regular file nor a
  * directory (a socket, a device) is `Special`. The tree is the resolved
  * view: `exists`, `isdir` and `isfile` follow symbolic links, so a link
  * appears as the entry it points to and is not an entry of its own.
  */
module FileSystem {
  import opened Wrappers
  import opened Text

  datatype Entry = RegularFile | Directory(listing: seq<string>) | Special

  type Tree = map<string, Entry>

  /** `os.path.exists(path)` and `Path(path).exists()`. */
  predicate Exists(fs: Tree, path: string) {
    path in fs
  }

  /** `os.path.isdir(path)`. */
  predicate IsDir(fs: Tree, path: string) {
    path in fs && fs[path].Directory?
  }

  /** `os.path.isfile(path)`. */
  predicate IsFile(fs: Tree, path: string) {
    path in fs && fs[path].RegularFile?
  }

  /** `os.listdir(path)` of a directory. */
  function ListDir(fs: Tree, path: string): seq<string>
    requires IsDir(fs, path)
  {
    fs[path].listing
  }

  /**
    * The tree after `os.makedirs(d, exist_ok=True)` for each `d` of `dirs`:
    * a path that does not exist becomes an empty directory, and every
    * existing entry is kept as it was.
    */
  function MakeDirs(fs: Tree, dirs: seq<string>): Tree {
    map p | p in fs.Keys + (set d | d in dirs) :: if p in fs then fs[p] else Directory([])
  }

  /**
    * The first of `dirs` that exists but is not a directory: there
    * `os.makedirs(d, exist_ok=True)` raises `FileExistsError`.
    */
  function FirstBlocked(fs: Tree, dirs: seq<string>): Option<string>
    decreases |dirs|
  {
    if |dirs| == 0 then None
    else if Exists(fs, dirs[0]) && !IsDir(fs, dirs[0]) then Some(dirs[0])
    else FirstBlocked(fs, dirs[1..])
  }

  /** A blocked path is one of `dirs` that exists and is not a directory, and there is none exactly when every path of `dirs` is absent or a directory. */
  lemma {:induction false} FirstBlockedFinds(fs: Tree, dirs: seq<string>)
    ensures FirstBlocked(fs, dirs).Some? ==>
      var d := FirstBlocked(fs, dirs).value;
      d in dirs && Exists(fs, d) && !IsDir(fs, d)
    ensures FirstBlocked(fs, dirs).None? <==> forall d :: d in dirs ==> !Exists(fs, d) || IsDir(fs, d)
    decreases |dirs|
  {
    if |dirs| > 0 {
      FirstBlockedFinds(fs, dirs[1..]);
      assert dirs == [dirs[0]] + dirs[1..];
    }
  }

  /**
    * After `MakeDirs`, every path of `dirs` that was absent or a directory
    * is a directory, every existing entry is unchanged, and nothing else
    * was added.
    */
  lemma MakeDirsEffect(fs: Tree, dirs: seq<string>)
    ensures forall d :: d in dirs && (!Exists(fs, d) || IsDir(fs, d)) ==> IsDir(MakeDirs(fs, dirs), d)
    ensures forall p :: p in fs ==> p in MakeDirs(fs, dirs) && MakeDirs(fs, dirs)[p] == fs[p]
    ensures forall p :: p in MakeDirs(fs, dirs) ==> p in fs || p in dirs
  {
  }

  /** `os.path.join(a, b)` on POSIX for two components. */
  function Join(a: string, b: string): string {
    if StartsWith(b, "/") then b
    else if a == "" || EndsWith(a, "/") then a + b
    else a + "/" + b
  }

  /**
    * A joined path ends in its last component; a relative component is
    * placed under the folder, with exactly one `/` between them when the
    * folder is not empty.
    */
  lemma JoinUnder(a: string, b: string)
    ensures EndsWith(Join(a, b), b)
    ensures !StartsWith(b, "/") ==> StartsWith(Join(a, b), a) && |Join(a, b)| == |a| + |b| + (if a == "" || EndsWith(a, "/") then 0 else 1)
    ensures !StartsWith(b, "/") && a != "" ==> Join(a, b)[..|Join(a, b)| - |b|] == (if EndsWith(a, "/") then a else a + "/")
  {
    var j := Join(a, b);
    if !StartsWith(b, "/") {
      if a == "" || EndsWith(a, "/") {
        assert j == a + b;
        assert j[..|a|] == a;
        assert j[|j| - |b|..] == b;
      } else {
        assert j == a + "/" + b;
        assert j[..|a|] == a;
        assert j[|j| - |b|..] == b;
        assert j[..|j| - |b|] == a + "/";
      }
    }
  }
}
