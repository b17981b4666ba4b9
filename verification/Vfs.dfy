/** vfs_open() and the file object it fills (fs/vfs.c). */
module Vfs {
  import opened Errno
  import opened PathWalk

  /** A caller-owned file object; inode 0 means closed. */
  class File {
    var inode: int
    var offset: nat
    var ops: int

    constructor ()
      ensures Closed()
    {
      inode, offset, ops := 0, 0, 0;
    }

    predicate Closed()
      reads this
    {
      inode == 0 && offset == 0 && ops == 0
    }

    /** vfs_clear_file(). */
    method Clear()
      modifies this
      ensures Closed()
    {
      inode, offset, ops := 0, 0, 0;
    }
  }

  /** Inode operations report errors as non-zero codes. */
  ghost predicate Honest(fs: Fs) {
    && (forall i, name :: fs.lookup(i, name).Err? ==> fs.lookup(i, name).errno != 0)
    && (forall i :: fs.parent(i).Err? ==> fs.parent(i).errno != 0)
  }

  lemma {:induction false} HonestWalk(fs: Fs, inode: int, names: seq<string>)
    requires Honest(fs)
    ensures Walk(fs, inode, names).Err? ==> Walk(fs, inode, names).errno != 0
    decreases |names|
  {
    if names != [] && Enter(fs, inode, names[0]).Ok? {
      HonestWalk(fs, Enter(fs, inode, names[0]).value, names[1..]);
    }
  }

  datatype Option<T> = None | Some(value: T)

  class Mount {
    const fs: Fs
    const fileOps: int -> int
    var ready: bool
    var root: int

    /** vfs_init(). */
    constructor (fs: Fs, fileOps: int -> int)
      ensures ready && root == 0 && this.fs == fs && this.fileOps == fileOps
    {
      this.fs, this.fileOps := fs, fileOps;
      ready, root := true, 0;
    }

    /** vfs_mount_root(), for the filesystem's own root. */
    method MountRoot() returns (ret: int)
      modifies this`root
      ensures ret == 0 <==> ready && fs.root != 0 && fs.directory(fs.root)
      ensures ret == 0 ==> root == fs.root
      ensures ret != 0 ==> ret == -EINVAL && root == old(root)
    {
      if !ready || fs.root == 0 || !fs.directory(fs.root) {
        return -EINVAL;
      }
      root := fs.root;
      return 0;
    }

    /** The component loop of vfs_open(). */
    method Resolve(path: string) returns (ret: int, found: int)
      requires path != [] && path[0] == '/' && root == fs.root && Honest(fs)
      ensures ret == 0 ==> Walk(fs, fs.root, Components(path)) == Ok(found)
      ensures ret != 0 ==> Walk(fs, fs.root, Components(path)) == Err(ret)
    {
      var current := root;
      var index := 1;
      while index < |path|
        invariant 1 <= index <= |path|
        invariant Walk(fs, fs.root, Components(path)) == Walk(fs, current, Components(path[index..]))
        decreases |path| - index
      {
        index := SkipSlashes(path, index);
        if index >= |path| {
          break;
        }
        var start := index;
        index := SkipName(path, index);
        var name := path[start..index];
        ghost var rest := path[start..];
        assert Components(rest) == [name] + Components(path[index..]) by {
          assert rest[..NameLength(rest)] == name && rest[NameLength(rest)..] == path[index..];
        }
        assert ([name] + Components(path[index..]))[1..] == Components(path[index..]);
        HonestWalk(fs, current, [name]);
        assert [name][1..] == [];
        if |name| == 0 || |name| >= NAME_MAX {
          return -ENAMETOOLONG, 0;
        }
        if name == "." {
          if !fs.directory(current) {
            return -ENOTDIR, 0;
          }
          continue;
        }
        var r := if name == ".." then LookupParent(fs, current) else LookupChild(fs, current, name);
        if r.Err? {
          return r.errno, 0;
        }
        current := r.value;
      }
      assert Components(path[index..]) == [];
      return 0, current;
    }

    method SkipSlashes(path: string, from: nat) returns (index: nat)
      requires from <= |path|
      ensures from <= index <= |path| && (index < |path| ==> path[index] != '/')
      ensures Components(path[index..]) == Components(path[from..])
    {
      index := from;
      while index < |path| && path[index] == '/'
        invariant from <= index <= |path|
        invariant Components(path[index..]) == Components(path[from..])
      {
        assert path[index..][1..] == path[index + 1..];
        index := index + 1;
      }
    }

    method SkipName(path: string, from: nat) returns (index: nat)
      requires from < |path| && path[from] != '/'
      ensures from < index <= |path| && index - from == NameLength(path[from..])
    {
      index := from;
      while index < |path| && path[index] != '/'
        invariant from <= index <= |path|
        invariant NameLength(path[from..]) == index - from + NameLength(path[index..])
      {
        assert path[index..][1..] == path[index + 1..];
        index := index + 1;
      }
    }

    /** vfs_open(): on any failure after the argument check the file is left closed. */
    method Open(path: Option<string>, file: File?) returns (ret: int)
      requires (root != 0 ==> root == fs.root) && Honest(fs)
      modifies file
      ensures path.None? || file == null || !ready || root == 0 ==> ret == -EINVAL
      ensures file != null && (path.None? || !ready || root == 0) ==> file.inode == old(file.inode) && file.offset == old(file.offset) && file.ops == old(file.ops)
      ensures path.Some? && file != null && ready && root != 0 ==>
        match PathWalk.Open(fs, path.value)
        case Err(e) => ret == e && ret != 0 && file.Closed()
        case Ok(inode) => ret == 0 && file.inode == inode && file.offset == 0 && file.ops == fileOps(inode)
    {
      if path.None? || file == null || !ready || root == 0 {
        return -EINVAL;
      }
      file.Clear();
      var text := path.value;
      if |text| == 0 || |text| >= PATH_MAX || text[0] != '/' {
        return -EINVAL;
      }
      var found;
      ret, found := Resolve(text);
      if ret != 0 {
        return;
      }
      file.inode, file.offset, file.ops := found, 0, fileOps(found);
    }
  }
}
