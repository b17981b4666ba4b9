/** The in-memory filesystem over an arbitrary tree (fs/ramfs/ramfs.c). */
module Ramfs {
  import opened Errno
  import opened PathWalk
  import Vfs

  datatype Entry = Entry(name: string, node: int)

  /** A node: its payload (absent for a directory), its directory table and its parent. */
  datatype Node = Node(directory: bool, size: nat, data: Vfs.Option<seq<int>>, children: seq<Entry>, parent: int)

  type Tree = map<int, Node>

  // ----- lookup -----

  /** The first entry with the name, or the table's length. */
  function Find(children: seq<Entry>, name: string, i: nat): (k: nat)
    requires i <= |children|
    ensures i <= k <= |children|
    ensures k < |children| ==> children[k].name == name
    ensures forall j :: i <= j < k ==> children[j].name != name
    decreases |children| - i
  {
    if i == |children| || children[i].name == name then i else Find(children, name, i + 1)
  }

  /** ramfs_lookup(). */
  function Lookup(tree: Tree, dir: int, name: string): Result<int> {
    if dir !in tree then Err(-EINVAL)
    else
      var k := Find(tree[dir].children, name, 0);
      if k < |tree[dir].children| then Ok(tree[dir].children[k].node) else Err(-ENOENT)
  }

  /** ramfs_parent(). */
  function Parent(tree: Tree, inode: int): Result<int> {
    if inode !in tree || tree[inode].parent == 0 then Err(-EINVAL) else Ok(tree[inode].parent)
  }

  /** The tree as the path walker sees it; only directories have inode operations. */
  function AsFs(tree: Tree, root: int): Fs {
    Fs(root, i => IsDirectory(tree, i), i => IsDirectory(tree, i), i => IsDirectory(tree, i),
       (i, name) => Lookup(tree, i, name), i => Parent(tree, i))
  }

  predicate IsDirectory(tree: Tree, i: int) {
    i in tree && tree[i].directory
  }

  /** Every entry leads to a node whose parent is the directory; the root is its own parent. */
  ghost predicate Consistent(tree: Tree, root: int) {
    && root != 0 && IsDirectory(tree, root) && tree[root].parent == root
    && 0 !in tree
    && forall p, i :: p in tree && 0 <= i < |tree[p].children| ==>
         tree[p].children[i].node in tree && tree[tree[p].children[i].node].parent == p
  }

  predicate UniqueNames(children: seq<Entry>) {
    forall i, j :: 0 <= i < j < |children| ==> children[i].name != children[j].name
  }

  /** With unique names every entry is found under its own name. */
  lemma LookupFinds(tree: Tree, dir: int, i: nat)
    requires dir in tree && i < |tree[dir].children| && UniqueNames(tree[dir].children)
    ensures Lookup(tree, dir, tree[dir].children[i].name) == Ok(tree[dir].children[i].node)
  {
  }

  /** In a consistent tree, `..` undoes every descent into a directory. */
  lemma RamfsParentsAgree(tree: Tree, root: int)
    requires Consistent(tree, root)
    ensures ParentsAgree(AsFs(tree, root)) && Vfs.Honest(AsFs(tree, root))
  {
  }

  /** Every walk from the root of a consistent tree stays in the tree. */
  lemma {:induction false} WalkStaysInTree(tree: Tree, root: int, inode: int, names: seq<string>)
    requires Consistent(tree, root) && ParentsInTree(tree) && inode in tree
    ensures Walk(AsFs(tree, root), inode, names).Ok? ==> Walk(AsFs(tree, root), inode, names).value in tree
    decreases |names|
  {
    var fs := AsFs(tree, root);
    if names != [] && Enter(fs, inode, names[0]).Ok? {
      var next := Enter(fs, inode, names[0]).value;
      var k := Find(tree[inode].children, names[0], 0);
      assert k < |tree[inode].children| ==> tree[inode].children[k].node in tree;
      WalkStaysInTree(tree, root, next, names[1..]);
    }
  }

  predicate ParentsInTree(tree: Tree) {
    forall p :: p in tree && tree[p].parent != 0 ==> tree[p].parent in tree
  }

  /** Opening `path/d/..` for a child directory d is opening `path`, in every consistent tree. */
  lemma OpenDownAndUp(tree: Tree, root: int, path: string, d: string)
    requires Consistent(tree, root) && Open(AsFs(tree, root), path).Ok?
    requires Name(d) && d != "." && d != ".." && |path| + |d| + 4 < PATH_MAX
    requires Enter(AsFs(tree, root), Open(AsFs(tree, root), path).value, d).Ok?
    requires IsDirectory(tree, Enter(AsFs(tree, root), Open(AsFs(tree, root), path).value, d).value)
    ensures Open(AsFs(tree, root), path + "/" + d + "/" + "..") == Open(AsFs(tree, root), path)
  {
    RamfsParentsAgree(tree, root);
    DownAndUp(AsFs(tree, root), path, d);
  }

  /** What a further component of a path opens, from the directory that the path opens: the entry of
      that name, the directory itself for `.`, its parent for `..`. */
  lemma OpenEntry(tree: Tree, root: int, path: string, i: nat)
    requires Consistent(tree, root) && Open(AsFs(tree, root), path).Ok? && IsDirectory(tree, Open(AsFs(tree, root), path).value)
    requires i < |tree[Open(AsFs(tree, root), path).value].children| && UniqueNames(tree[Open(AsFs(tree, root), path).value].children)
    requires var name := tree[Open(AsFs(tree, root), path).value].children[i].name;
      Name(name) && |name| < 64 && name != "." && name != ".." && |path| + 1 + |name| < 256
    ensures var e := tree[Open(AsFs(tree, root), path).value].children[i];
      Open(AsFs(tree, root), path + "/" + e.name) == Ok(e.node)
  {
    var dir := Open(AsFs(tree, root), path).value;
    OpenOneMore(AsFs(tree, root), path, tree[dir].children[i].name);
    LookupFinds(tree, dir, i);
  }

  lemma OpenDots(tree: Tree, root: int, path: string)
    requires Consistent(tree, root) && Open(AsFs(tree, root), path).Ok? && IsDirectory(tree, Open(AsFs(tree, root), path).value)
    requires |path| + 3 < 256
    ensures Open(AsFs(tree, root), path + "/" + ".") == Open(AsFs(tree, root), path)
    ensures var dir := Open(AsFs(tree, root), path).value;
      tree[dir].parent != 0 ==> Open(AsFs(tree, root), path + "/" + "..") == Ok(tree[dir].parent)
  {
    OpenOneMore(AsFs(tree, root), path, ".");
    OpenOneMore(AsFs(tree, root), path, "..");
  }

  /** A name that is not in the directory is not found, a path does not go on from a file, and a name
      of 64 characters or more is too long. */
  lemma OpenFails(tree: Tree, root: int, path: string, name: string)
    requires Consistent(tree, root) && Open(AsFs(tree, root), path).Ok? && Open(AsFs(tree, root), path).value in tree
    requires Name(name) && |path| + 1 + |name| < 256
    ensures |name| >= 64 ==> Open(AsFs(tree, root), path + "/" + name) == Err(-ENAMETOOLONG)
    ensures |name| < 64 && !tree[Open(AsFs(tree, root), path).value].directory ==> Open(AsFs(tree, root), path + "/" + name) == Err(-ENOTDIR)
    ensures var dir := Open(AsFs(tree, root), path).value;
      |name| < 64 && tree[dir].directory && name != "." && name != ".." && (forall i :: 0 <= i < |tree[dir].children| ==> tree[dir].children[i].name != name) ==>
        Open(AsFs(tree, root), path + "/" + name) == Err(-ENOENT)
  {
    OpenOneMore(AsFs(tree, root), path, name);
  }

  /** ramfs_name_equal(). */
  method NameEqual(left: string, right: string) returns (equal: bool)
    ensures equal <==> left == right
  {
    if |left| != |right| {
      return false;
    }
    var index := 0;
    while index < |right|
      invariant index <= |right|
      invariant left[..index] == right[..index]
    {
      if left[index] != right[index] {
        return false;
      }
      assert left[..index + 1] == left[..index] + [left[index]];
      index := index + 1;
    }
    assert left == left[..index] && right == right[..index];
    return true;
  }

  /** ramfs_lookup() as written. */
  method LookupEntry(tree: Tree, dir: int, name: string) returns (r: Result<int>)
    ensures r == Lookup(tree, dir, name)
  {
    if dir !in tree {
      return Err(-EINVAL);
    }
    var children := tree[dir].children;
    var index := 0;
    while index < |children|
      invariant index <= |children| && Find(children, name, 0) == Find(children, name, index)
    {
      var equal := NameEqual(children[index].name, name);
      if equal {
        return Ok(children[index].node);
      }
      index := index + 1;
    }
    return Err(-ENOENT);
  }

  // ----- reading -----

  function Available(size: nat, offset: nat, wanted: nat): nat {
    if offset >= size then 0 else if wanted < size - offset then wanted else size - offset
  }

  /** ramfs_read(): copy what is left, up to what is wanted, and advance. */
  method Read(node: Node, file: Vfs.File, buffer: array<int>, wanted: nat) returns (ret: int, count: nat)
    requires wanted <= buffer.Length && (node.data.Some? ==> node.size <= |node.data.value|)
    modifies file`offset, buffer
    ensures node.data.None? ==> ret == -EINVAL && file.offset == old(file.offset) && buffer[..] == old(buffer[..])
    ensures node.data.Some? ==>
      && ret == 0 && count == Available(node.size, old(file.offset), wanted)
      && file.offset == old(file.offset) + count
      && (count > 0 ==> buffer[..count] == node.data.value[old(file.offset)..old(file.offset) + count])
      && buffer[count..] == old(buffer[count..])
  {
    count := 0;
    if node.data.None? {
      return -EINVAL, 0;
    }
    ret := 0;
    if file.offset >= node.size {
      return;
    }
    var left := node.size - file.offset;
    count := if wanted < left then wanted else left;
    var index := 0;
    while index < count
      invariant 0 <= index <= count && file.offset == old(file.offset)
      invariant forall j :: 0 <= j < index ==> buffer[j] == node.data.value[file.offset + j]
      invariant forall j :: index <= j < buffer.Length ==> buffer[j] == old(buffer[j])
    {
      buffer[index] := node.data.value[file.offset + index];
      index := index + 1;
    }
    file.offset := file.offset + count;
  }

  /** A series of reads: the bytes they deliver and the offset they reach. */
  function Reads(data: seq<int>, offset: nat, wanted: seq<nat>): (seq<int>, nat)
    requires offset <= |data|
    decreases |wanted|
  {
    if wanted == [] then ([], offset)
    else
      var n := Available(|data|, offset, wanted[0]);
      var (rest, end) := Reads(data, offset + n, wanted[1..]);
      (data[offset..offset + n] + rest, end)
  }

  function Sum(ns: seq<nat>): nat {
    if ns == [] then 0 else ns[0] + Sum(ns[1..])
  }

  /** However a file is read in pieces, the pieces put together are its bytes in order, none
      missing and none repeated, up to the end of the file. */
  lemma {:induction false} ReadsPutTogether(data: seq<int>, offset: nat, wanted: seq<nat>)
    requires offset <= |data|
    ensures var (bytes, end) := Reads(data, offset, wanted);
      && end == (if offset + Sum(wanted) < |data| then offset + Sum(wanted) else |data|)
      && bytes == data[offset..end]
    decreases |wanted|
  {
    if wanted != [] {
      var n := Available(|data|, offset, wanted[0]);
      ReadsPutTogether(data, offset + n, wanted[1..]);
      var (rest, end) := Reads(data, offset + n, wanted[1..]);
      assert data[offset..offset + n] + data[offset + n..end] == data[offset..end];
    }
  }

  // ----- directory listing -----

  datatype Dirent = Dirent(name: string, directory: bool, size: nat)

  /** ramfs_copy_name(): names are cut to the dirent's buffer. */
  function CopiedName(name: string): (r: string)
    ensures r <= name && |r| < 64 && (r == name || |r| == 63)
  {
    if |name| < NAME_MAX then name else name[..NAME_MAX - 1]
  }

  /** ramfs_readdir(): the next entry of the table, or -ENOENT past its end. */
  method Readdir(tree: Tree, dir: int, file: Vfs.File) returns (ret: int, dirent: Dirent)
    requires dir in tree && forall i :: 0 <= i < |tree[dir].children| ==> tree[dir].children[i].node in tree
    modifies file`offset
    ensures old(file.offset) >= |tree[dir].children| ==> ret == -ENOENT && file.offset == old(file.offset)
    ensures old(file.offset) < |tree[dir].children| ==>
      var e := tree[dir].children[old(file.offset)];
      && ret == 0 && file.offset == old(file.offset) + 1
      && dirent == Dirent(CopiedName(e.name), tree[e.node].directory, tree[e.node].size)
  {
    var children := tree[dir].children;
    dirent := Dirent("", false, 0);
    if file.offset >= |children| {
      return -ENOENT, dirent;
    }
    var entry := children[file.offset];
    var name := [];
    while |name| < NAME_MAX - 1 && |name| < |entry.name|
      invariant |name| <= NAME_MAX - 1 && |name| <= |entry.name| && name == entry.name[..|name|]
      decreases |entry.name| - |name|
    {
      name := name + [entry.name[|name|]];
    }
    dirent := Dirent(name, tree[entry.node].directory, tree[entry.node].size);
    file.offset := file.offset + 1;
    ret := 0;
  }
}
