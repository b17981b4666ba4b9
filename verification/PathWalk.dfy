/** Path resolution as a left fold over the non-empty components of a path (fs/vfs.c). */
module PathWalk {
  import opened Errno

  const NAME_MAX := 64
  const PATH_MAX := 256

  datatype Result<T> = Ok(value: T) | Err(errno: int)

  /** A mounted filesystem, seen through its inode operations. Inode 0 is NULL. */
  datatype Fs = Fs(
    root: int,
    directory: int -> bool,
    hasLookup: int -> bool,
    hasParent: int -> bool,
    lookup: (int, string) -> Result<int>,
    parent: int -> Result<int>)

  /** vfs_lookup_child(), and the NULL check after it. */
  function LookupChild(fs: Fs, dir: int, name: string): Result<int> {
    if !fs.directory(dir) then Err(-ENOTDIR)
    else if !fs.hasLookup(dir) then Err(-ENOTDIR)
    else match fs.lookup(dir, name)
      case Err(e) => Err(e)
      case Ok(next) => if next == 0 then Err(-ENOENT) else Ok(next)
  }

  /** vfs_lookup_parent(): the root is its own parent. */
  function LookupParent(fs: Fs, inode: int): Result<int> {
    if !fs.directory(inode) then Err(-ENOTDIR)
    else if inode == fs.root then Ok(fs.root)
    else if !fs.hasParent(inode) then Err(-EINVAL)
    else fs.parent(inode)
  }

  /** One component. */
  function Enter(fs: Fs, inode: int, name: string): Result<int> {
    if |name| >= NAME_MAX then Err(-ENAMETOOLONG)
    else if name == "." then if fs.directory(inode) then Ok(inode) else Err(-ENOTDIR)
    else if name == ".." then LookupParent(fs, inode)
    else LookupChild(fs, inode, name)
  }

  /** All components, stopping at the first error. */
  function Walk(fs: Fs, inode: int, names: seq<string>): Result<int>
    decreases |names|
  {
    if names == [] then Ok(inode)
    else match Enter(fs, inode, names[0])
      case Err(e) => Err(e)
      case Ok(next) => Walk(fs, next, names[1..])
  }

  // ----- components -----

  /** The length of the leading part without a slash. */
  function NameLength(s: string): (n: nat)
    ensures n <= |s|
    ensures forall i :: 0 <= i < n ==> s[i] != '/'
    ensures n < |s| ==> s[n] == '/'
  {
    if s == [] || s[0] == '/' then 0 else NameLength(s[1..]) + 1
  }

  /** The non-empty parts between slashes. */
  function Components(s: string): seq<string>
    decreases |s|
  {
    if s == [] then []
    else if s[0] == '/' then Components(s[1..])
    else [s[..NameLength(s)]] + Components(s[NameLength(s)..])
  }

  predicate Name(s: string) {
    s != [] && forall i :: 0 <= i < |s| ==> s[i] != '/'
  }

  lemma {:induction false} ComponentsAreNames(s: string, i: nat)
    requires i < |Components(s)|
    ensures Name(Components(s)[i])
    decreases |s|
  {
    if s[0] == '/' {
      ComponentsAreNames(s[1..], i);
    } else if i > 0 {
      ComponentsAreNames(s[NameLength(s)..], i - 1);
    }
  }

  lemma {:induction false} NameEnds(a: string, b: string)
    requires Name(a) && (b == [] || b[0] == '/')
    ensures NameLength(a + b) == |a|
    decreases |a|
  {
    assert (a + b)[1..] == a[1..] + b;
    if |a| > 1 {
      NameEnds(a[1..], b);
    }
  }

  /** A slash joins: the components of a path are those of its parts, one after the other. */
  lemma {:induction false} ComponentsJoin(a: string, b: string)
    ensures Components(a + "/" + b) == Components(a) + Components(b)
    decreases |a|
  {
    var s := a + "/" + b;
    if a == [] {
      assert s[0] == '/' && s[1..] == b;
    } else if a[0] == '/' {
      assert s[1..] == a[1..] + "/" + b;
      ComponentsJoin(a[1..], b);
    } else {
      var n := NameLength(a);
      var rest := a[n..];
      NameEnds(a[..n], rest + "/" + b);
      assert s == a[..n] + (rest + "/" + b);
      assert s[n..] == rest + "/" + b;
      ComponentsJoin(rest, b);
    }
  }

  lemma OneComponent(name: string)
    requires Name(name)
    ensures Components(name) == [name]
  {
    NameEnds(name, []);
    assert name + [] == name;
    assert Components(name[|name|..]) == [];
  }

  /** Repeated and trailing slashes do not matter. */
  lemma SlashesDoNotMatter(a: string, b: string)
    ensures Components(a + "/" + "/" + b) == Components(a + "/" + b)
    ensures Components(a + "/") == Components(a)
  {
    ComponentsJoin(a, "/" + b);
    ComponentsJoin(a, b);
    assert ("/" + b)[1..] == b;
    assert a + "/" + ("/" + b) == a + "/" + "/" + b;
    ComponentsJoin(a, []);
    assert a + "/" + [] == a + "/";
  }

  // ----- walks -----

  lemma {:induction false} WalkJoin(fs: Fs, inode: int, a: seq<string>, b: seq<string>)
    ensures Walk(fs, inode, a + b) == match Walk(fs, inode, a) case Err(e) => Err(e) case Ok(next) => Walk(fs, next, b)
    decreases |a|
  {
    if a == [] {
      assert a + b == b;
    } else {
      assert (a + b)[0] == a[0] && (a + b)[1..] == a[1..] + b;
      var r := Enter(fs, inode, a[0]);
      if r.Ok? {
        WalkJoin(fs, r.value, a[1..], b);
      }
    }
  }

  /** `..` never leaves the root, however often it is repeated. */
  lemma {:induction false} DotDotStaysAtRoot(fs: Fs, n: nat)
    requires fs.directory(fs.root)
    ensures Walk(fs, fs.root, seq(n, _ => "..")) == Ok(fs.root)
  {
    if n > 0 {
      var up := seq(n, _ => "..");
      assert up[1..] == seq(n - 1, _ => "..");
      DotDotStaysAtRoot(fs, n - 1);
    }
  }

  /** Going down into a directory and back up ends where it began, if parents are consistent. */
  ghost predicate ParentsAgree(fs: Fs) {
    forall p, name :: Returns(fs, p, name)
  }

  predicate Returns(fs: Fs, p: int, name: string) {
    name != "." && name != ".." && Enter(fs, p, name).Ok? && fs.directory(Enter(fs, p, name).value) ==>
      LookupParent(fs, Enter(fs, p, name).value) == Ok(p)
  }

  /** The result of vfs_open() on a path: the inode found, or the first error. */
  function Open(fs: Fs, path: string): Result<int> {
    if path == [] || |path| >= PATH_MAX || path[0] != '/' then Err(-EINVAL)
    else Walk(fs, fs.root, Components(path))
  }

  /** The root is `/`; a path that is not absolute, or not shorter than 256 characters, is refused. */
  lemma OpenEnds(fs: Fs, path: string)
    ensures Open(fs, "/") == Ok(fs.root)
    ensures path == "" || path[0] != '/' || |path| >= 256 ==> Open(fs, path) == Err(-EINVAL)
  {
    assert "/"[1..] == [];
  }

  /** Opening a longer path is one more component from what the shorter one opens. */
  lemma OpenOneMore(fs: Fs, path: string, name: string)
    requires Open(fs, path).Ok? && Name(name) && |path| + 1 + |name| < PATH_MAX
    ensures Open(fs, path + "/" + name) == Enter(fs, Open(fs, path).value, name)
  {
    ComponentsJoin(path, name);
    OneComponent(name);
    WalkJoin(fs, fs.root, Components(path), [name]);
    assert [name][1..] == [];
  }

  /** Appending `/d/..`, where d names a child directory, opens the same inode. */
  lemma DownAndUp(fs: Fs, path: string, d: string)
    requires ParentsAgree(fs) && Open(fs, path).Ok?
    requires Name(d) && d != "." && d != ".." && |path| + |d| + 4 < PATH_MAX
    requires Enter(fs, Open(fs, path).value, d).Ok? && fs.directory(Enter(fs, Open(fs, path).value, d).value)
    ensures Open(fs, path + "/" + d + "/" + "..") == Open(fs, path)
  {
    var p := Open(fs, path).value;
    assert Returns(fs, p, d);
    ComponentsJoin(path + "/" + d, "..");
    ComponentsJoin(path, d);
    OneComponent(d);
    OneComponent("..");
    var long := path + "/" + d + "/" + "..";
    assert Components(long) == Components(path) + [d] + [".."];
    assert Components(path) + [d] + [".."] == Components(path) + ([d] + [".."]);
    WalkJoin(fs, fs.root, Components(path), [d] + [".."]);
    var c := Enter(fs, p, d).value;
    assert ([d] + [".."])[1..] == [".."] && [".."][1..] == [];
    assert Walk(fs, c, [".."]) == Ok(p);
  }
}
