/** tarfs, the path walk of vn_open and sequential reads (tarfs.c, vfs.c, fgetc.c). */
module Tarfs {
  import opened Words
  import opened Options
  import opened Strtok
  import opened TarSpec

  /** A vnode: a regular file has content, a directory a list of entries, newest first. */
  class Vnode {
    const isDir: bool
    const content: seq<byte>
    var entries: seq<Entry>

    constructor (isDir: bool, content: seq<byte>)
      ensures this.isDir == isDir && this.content == content && entries == []
    {
      this.isDir := isDir;
      this.content := content;
      entries := [];
    }
  }

  datatype Entry = Entry(name: seq<byte>, node: Vnode)

  /** The first entry of that name. */
  function Lookup(es: seq<Entry>, name: seq<byte>): Option<Vnode> {
    if es == [] then None else if es[0].name == name then Some(es[0].node) else Lookup(es[1..], name)
  }

  /** node_lookup. */
  method NodeLookup(vp: Vnode, nm: seq<byte>) returns (r: Option<Vnode>)
    ensures r == if vp.isDir then Lookup(vp.entries, nm) else None
  {
    if !vp.isDir {
      return None;
    }
    var item := 0;
    assert vp.entries[0..] == vp.entries;
    while item < |vp.entries|
      invariant item <= |vp.entries| && Lookup(vp.entries[item..], nm) == Lookup(vp.entries, nm)
    {
      assert vp.entries[item..][1..] == vp.entries[item + 1..];
      if nm == vp.entries[item].name {
        return Some(vp.entries[item].node);
      }
      item := item + 1;
    }
    return None;
  }

  // ----- the tree of vnodes

  ghost function Child(tree: map<Path, Vnode>, p: Path, name: seq<byte>): Option<Vnode> {
    if p + [name] in tree then Some(tree[p + [name]]) else None
  }

  ghost predicate Linked(tree: map<Path, Vnode>, p: Path)
    requires p in tree
    reads tree[p]
  {
    tree[p].isDir ==> forall name :: Lookup(tree[p].entries, name) == Child(tree, p, name)
  }

  /** tree names every vnode by its path, and the directory lists agree with it. */
  ghost predicate TreeOk(tree: map<Path, Vnode>)
    reads tree.Values
  {
    && FsOk(FsOf(tree))
    && (forall p, q :: p in tree && q in tree && p != q ==> tree[p] != tree[q])
    && (forall p :: p in tree ==> Linked(tree, p))
  }

  /** The file system the vnodes stand for. */
  ghost function FsOf(tree: map<Path, Vnode>): Fs {
    map p | p in tree :: if tree[p].isDir then Dir else File(tree[p].content)
  }

  /** One step of a path walk. */
  lemma WalkStep(tree: map<Path, Vnode>, p: Path, name: seq<byte>)
    requires TreeOk(tree) && p in tree
    ensures p + [name] in tree ==> tree[p].isDir && Lookup(tree[p].entries, name) == Some(tree[p + [name]])
    ensures p + [name] !in tree ==> !tree[p].isDir || Lookup(tree[p].entries, name) == None
  {
    assert Linked(tree, p);
    if p + [name] in tree {
      assert Parent(p + [name]) == p;
      assert p + [name] in FsOf(tree);
    }
  }

  /** A walk that fails cannot be saved by further segments. */
  lemma WalkFails(tree: map<Path, Vnode>, p: Path, q: Path)
    requires TreeOk(tree) && p !in tree && p <= q
    ensures q !in tree
  {
    if q in tree {
      NothingBelow(FsOf(tree), p, q);
    }
  }

  // ----- lookup_parent

  /** The inner loop: the bytes up to the next slash. */
  method ReadSegment(path: seq<byte>, start: nat, length: nat) returns (nm: seq<byte>, index: nat)
    requires start <= length <= |path|
    ensures index == SkipToken(path, start, length, [SLASH]) && nm == path[start..index]
  {
    nm, index := [], start;
    while index < length && path[index] != SLASH
      invariant start <= index <= length && nm == path[start..index]
      invariant SkipToken(path, index, length, [SLASH]) == SkipToken(path, start, length, [SLASH])
    {
      nm := nm + [path[index]];
      index := index + 1;
    }
  }

  /** Parent and new name of a header's path; None when a directory on the way is missing. */
  method LookupParent(root: Vnode, path: seq<byte>, ghost tree: map<Path, Vnode>) returns (r: Option<(Vnode, seq<byte>)>)
    requires TreeOk(tree) && [] in tree && tree[[]] == root && path != []
    ensures r.Some? <==> Parent(TreePath(path)) in tree
    ensures r.Some? ==> r.value == (tree[Parent(TreePath(path))], TreePath(path)[|TreePath(path)| - 1])
  {
    hide *;
    var current, length := root, |path|;
    if path[length - 1] == SLASH {
      length := length - 1;
    }
    ghost var segs, k := TreePath(path), 0;
    var index: nat, nm: seq<byte>, more := 0, [], true;
    AtStart(path, length, segs);
    while more
      invariant k < |segs| && segs[..k] in tree && current == tree[segs[..k]]
      invariant more ==> At(path, index, length, segs, k)
      invariant !more ==> k == |segs| - 1 && nm == segs[k]
      decreases |segs| - k, more
    {
      SegmentsUnfold(path, index, length, segs, k);
      nm, index := ReadSegment(path, index, length);
      if index < length {
        WalkStep(tree, segs[..k], nm);
        var node := NodeLookup(current, nm);
        if node.None? {
          WalkFails(tree, segs[..k + 1], Parent(segs));
          return None;
        }
        current := node.value;
        index := index + 1;
        k := k + 1;
      }
      more := index < length;
    }
    ParentIs(segs);
    r := Some((current, nm));
  }

  lemma ParentIs(segs: Path)
    requires segs != []
    ensures Parent(segs) == segs[..|segs| - 1]
  {
  }

  /** The loop stands at index p, in front of the k-th segment. */
  ghost predicate At(s: seq<byte>, p: nat, e: nat, segs: Path, k: nat) {
    p <= e <= |s| && k < |segs| && segs == segs[..k] + Segments(s, p, e)
  }

  lemma AtStart(path: seq<byte>, e: nat, segs: Path)
    requires path != [] && segs == TreePath(path) && e == (if path[|path| - 1] == SLASH then |path| - 1 else |path|)
    ensures segs != [] && segs[..0] == [] && At(path, 0, e, segs, 0)
  {
  }

  /** The segment the loop reads at index p, and what is left after it. */
  lemma SegmentsUnfold(s: seq<byte>, p: nat, e: nat, segs: Path, k: nat)
    requires At(s, p, e, segs, k)
    ensures p <= e <= |s|
    ensures var j := SkipToken(s, p, e, [SLASH]);
      && p <= j <= e && segs[k] == s[p..j] && segs[..k] + [s[p..j]] == segs[..k + 1]
      && (j == e ==> k == |segs| - 1)
      && (j < e ==> k + 1 < |segs| && segs[..k + 1] <= Parent(segs))
      && (j + 1 == e ==> k + 1 == |segs| - 1 && segs[k + 1] == s[p..j])
      && (j + 1 < e ==> At(s, j + 1, e, segs, k + 1))
  {
    hide SkipToken, Segments;
    var rest := Segments(s, p, e);
    SegmentsFirst(s, p, e);
    assert segs[k..] == rest && segs[k] == rest[0];
    assert segs[k + 1..] == rest[1..];
  }

  lemma SegmentsFirst(s: seq<byte>, p: nat, e: nat)
    requires p <= e <= |s|
    ensures var j := SkipToken(s, p, e, [SLASH]);
      var rest := Segments(s, p, e);
      && rest[0] == s[p..j]
      && (j == e ==> |rest| == 1) && (j + 1 == e ==> |rest| == 2 && rest[1] == s[p..j])
      && (j + 1 < e ==> rest[1..] == Segments(s, j + 1, e) && |rest| > 1)
  {
    hide SkipToken;
  }

  // ----- reading headers

  /** The C string at o. */
  method ReadString(image: seq<byte>, o: nat, ghost n: nat, ghost s: seq<byte>) returns (text: seq<byte>)
    requires FieldAt(image, o, n, s)
    ensures text == s
  {
    var i := 0;
    text := [];
    FieldByte(image, o, n, s, 0);
    while image[o + i] != 0
      invariant i <= |s| && text == s[..i] && (i < |s| ==> image[o + i] == s[i] != 0)
      decreases |s| - i
    {
      FieldByte(image, o, n, s, i + 1);
      text := text + [image[o + i]];
      i := i + 1;
    }
  }

  lemma FieldByte(image: seq<byte>, o: nat, n: nat, s: seq<byte>, k: nat)
    requires FieldAt(image, o, n, s)
    ensures k < |s| ==> image[o + k] == s[k] != 0
  {
    if k < |s| {
      assert image[o..o + |s|][k] == s[k] && s[k] in s;
    }
  }

  /** read_octal on whatever text the field holds. */
  method ReadOctal(image: seq<byte>, field: nat, ghost n: nat, ghost text: seq<byte>) returns (res: int)
    requires FieldAt(image, field, n, text)
    ensures res == OctalWord(text)
  {
    hide ToI32;
    res := 0;
    var i := 0;
    FieldByte(image, field, n, text, 0);
    while image[field + i] != 0
      invariant i <= |text| && res == OctalWord(text[..i]) && (i < |text| ==> image[field + i] == text[i] != 0)
      decreases |text| - i
    {
      FieldByte(image, field, n, text, i + 1);
      assert text[..i + 1][..i] == text[..i];
      var c: int := image[field + i];
      res := ToI32(res * 8 + (if c < 128 then c else c - 256) - 48);
      i := i + 1;
    }
    assert text[..i] == text;
  }

  /** next_header. */
  function NextHeader(o: nat, size: nat): nat {
    var next := o + (size / 512 + 1) * 512;
    if size % 512 != 0 then next + 512 else next
  }

  lemma NextHeaderSpans(o: nat, size: nat)
    ensures NextHeader(o, size) == o + Span(size)
    ensures (NextHeader(o, size) - o) % 512 == 0 && o + 512 + size <= NextHeader(o, size) < o + 1024 + size
  {
  }

  /** The size field of a header. */
  method ReadSize(image: seq<byte>, o: nat, ghost h: Header) returns (size: nat)
    requires HeaderAt(image, o, h)
    ensures size == |h.content|
  {
    hide FieldAt, OctalDigits, OctalValue, OctalWord;
    ghost var digits :| SizeField(image, o, digits, |h.content|);
    OctalWordExact(digits);
    size := ReadOctal(image, o + 124, 12, digits);
  }

  /** How mounting ends: 0, -1, or by writing through a file's data as if it were a directory's. */
  datatype MountResult = Done | Failed | Confused

  ghost predicate Says(r: MountResult, m: Mounted, fs: Fs) {
    match r
    case Done => m == Tree(fs)
    case Failed => m == Refused
    case Confused => m == Corrupted
  }

  lemma SaysWhat(r: MountResult, m: Mounted, fs: Fs)
    ensures Says(r, m, fs) ==> (r == Done <==> m.Tree?) && (r == Done ==> m.fs == fs)
    ensures Says(r, m, fs) <==> (match r case Done => m == Tree(fs) case Failed => m == Refused case Confused => m == Corrupted)
  {
  }

  lemma HeaderFields(image: seq<byte>, o: nat, h: Header)
    requires HeaderAt(image, o, h)
    ensures o + 512 <= |image| && FieldAt(image, o, 100, h.name) && h.name != [] && (h.valid <==> IsValidHeader(image, o))
  {
  }

  lemma EntryRefused(fs: Fs, h: Header)
    ensures !h.valid || Parent(TreePath(h.name)) !in fs || NodeOf(h).None? ==> forall fs' :: Says(Failed, AddEntry(fs, h), fs')
  {
    hide TreePath, Prune, NodeOf;
  }

  lemma EntryAdded(fs: Fs, h: Header)
    requires h.valid && Parent(TreePath(h.name)) in fs && NodeOf(h).Some?
    ensures fs[Parent(TreePath(h.name))] != Dir ==> forall fs' :: Says(Confused, AddEntry(fs, h), fs')
    ensures fs[Parent(TreePath(h.name))] == Dir ==>
      Says(Done, AddEntry(fs, h), Prune(fs, TreePath(h.name))[TreePath(h.name) := NodeOf(h).value])
  {
    hide TreePath, Prune, NodeOf;
  }

  /** What a listing lets mount say. */
  lemma ListingSays(hs: seq<Header>)
    ensures forall r, fs :: Listing(hs) && Says(r, Build(hs), fs) ==> r == if NoEmptyFile(hs) then Done else Failed
  {
    hide Listing, Build, NoEmptyFile;
    if Listing(hs) {
      MountsIffNoEmptyFile(hs);
    }
  }

  // ----- adding a node

  ghost function PruneTree(tree: map<Path, Vnode>, p: Path): map<Path, Vnode> {
    map q | q in tree && !(p <= q) :: tree[q]
  }

  /** The tree after add_to_dir has put `node` in front of the parent's entries. */
  lemma TreeWithNode(tree: map<Path, Vnode>, p: Path, node: Vnode, entries: seq<Entry>)
    requires p != [] && FsOk(FsOf(tree)) && Parent(p) in tree && tree[Parent(p)].isDir && node.entries == []
    requires forall q, r :: q in tree && r in tree && q != r ==> tree[q] != tree[r]
    requires forall q :: q in tree && q != Parent(p) ==> Linked(tree, q)
    requires tree[Parent(p)].entries == [Entry(p[|p| - 1], node)] + entries
    requires forall name :: Lookup(entries, name) == Child(tree, Parent(p), name)
    requires forall q :: q in tree ==> tree[q] != node
    ensures TreeOk(PruneTree(tree, p)[p := node])
    ensures FsOf(PruneTree(tree, p)[p := node]) == Prune(FsOf(tree), p)[p := if node.isDir then Dir else File(node.content)]
  {
    hide FsOk, Lookup, Child;
    var tree' := PruneTree(tree, p)[p := node];
    var n := if node.isDir then Dir else File(node.content);
    assert FsOf(tree') == Prune(FsOf(tree), p)[p := n];
    PrunedFsOk(FsOf(tree), p, n);
    forall q | q in tree' ensures Linked(tree', q) {
      LinkedAfter(tree, p, node, entries, q);
    }
  }

  lemma LinkedAfter(tree: map<Path, Vnode>, p: Path, node: Vnode, entries: seq<Entry>, q: Path)
    requires p != [] && Parent(p) in tree && tree[Parent(p)].isDir && node.entries == []
    requires forall r :: r in tree && r != Parent(p) ==> Linked(tree, r)
    requires tree[Parent(p)].entries == [Entry(p[|p| - 1], node)] + entries
    requires forall name :: Lookup(entries, name) == Child(tree, Parent(p), name)
    requires q in PruneTree(tree, p)[p := node]
    ensures Linked(PruneTree(tree, p)[p := node], q)
  {
    var tree' := PruneTree(tree, p)[p := node];
    if q != p {
      forall name ensures tree'[q].isDir ==> Lookup(tree'[q].entries, name) == Child(tree', q, name) {
        ChildAfter(tree, p, node, q, name);
        if q == Parent(p) {
          assert tree[q].entries[1..] == entries;
        }
      }
    } else {
      forall name ensures Child(tree', p, name) == None {
        assert p <= p + [name];
      }
    }
  }

  lemma ChildAfter(tree: map<Path, Vnode>, p: Path, node: Vnode, q: Path, name: seq<byte>)
    requires p != [] && q in tree && !(p <= q)
    ensures var tree' := PruneTree(tree, p)[p := node];
      Child(tree', q, name) == if q + [name] == p then Some(node) else Child(tree, q, name)
    ensures q + [name] == p <==> q == Parent(p) && name == p[|p| - 1]
  {
    BelowParent(p, q + [name]);
    assert Parent(q + [name]) == q;
    assert p == Parent(p) + [p[|p| - 1]];
  }

  // ----- mounting and opening

  class FileHandle {
    const node: Vnode
    var pos: uint32
    var error: int
    var eof: bool

    /** Reads start at 0 and never leave the file. */
    ghost predicate Valid()
      reads this
    {
      |node.content| < TWO_31 && (!node.isDir ==> pos <= |node.content|)
    }

    constructor (node: Vnode)
      ensures this.node == node && pos == 0 && error == 0 && !eof
    {
      this.node := node;
      pos, error, eof := 0, 0, false;
    }

    /** vn_rdwr for reading, with node_rdwr: sizes and offsets are unsigned 32-bit numbers. */
    method VnRead(length: uint32) returns (err: int, data: seq<byte>, done: uint32)
      requires Valid()
      modifies this`pos
      ensures Valid()
      ensures node.isDir ==> err == -1 && data == [] && done == length && pos == ToU32(old(pos) + length)
      ensures !node.isDir ==> err == 0 && done == |data| && old(pos) + done <= |node.content|
      ensures !node.isDir ==> data == node.content[old(pos)..old(pos) + done]
      ensures !node.isDir ==> pos == old(pos) + done && (done == length || (done < length && pos == |node.content|))
    {
      done := length;
      data := [];
      if node.isDir {
        err := -1;
      } else {
        err := 0;
        if done > ToU32(|node.content| - pos) {
          done := ToU32(|node.content| - pos);
        }
        data := node.content[pos..pos + done];
      }
      pos := ToU32(pos + done);
    }

    /** fgetc: the next byte, or -1 with eof or error set. */
    method Fgetc() returns (c: int)
      requires Valid()
      modifies this
      ensures Valid()
      ensures node.isDir ==> c == -1 && error == -1 && eof == old(eof) && pos == ToU32(old(pos) + 1)
      ensures !node.isDir && old(pos) < |node.content| ==> c == node.content[old(pos)] && pos == old(pos) + 1
      ensures !node.isDir && old(pos) < |node.content| ==> eof == old(eof) && error == old(error)
      ensures !node.isDir && old(pos) == |node.content| ==> c == -1 && eof && pos == old(pos) && error == old(error)
    {
      var err, out, length := VnRead(1);
      if err == 0 {
        if length == 1 {
          c := out[0];
        } else {
          eof := true;
          c := -1;
        }
      } else {
        error := err;
        c := -1;
      }
    }

    /** Calling fgetc until it returns EOF yields the rest of the file. */
    method ReadToEof() returns (data: seq<byte>)
      requires Valid() && !node.isDir
      modifies this
      ensures Valid() && data == node.content[old(pos)..] && eof && pos == |node.content|
    {
      data := [];
      ghost var start: nat := pos;
      var c := Fgetc();
      while c != -1
        invariant Valid() && start <= pos
        invariant c != -1 ==> pos > start && data == node.content[start..pos - 1] && c == node.content[pos - 1]
        invariant c == -1 ==> data == node.content[start..] && eof && pos == |node.content|
        decreases |node.content| - pos, c != -1
      {
        data := data + [c];
        c := Fgetc();
      }
    }
  }

  const VFS_OPEN_FILES_LENGTH := 7

  datatype OpenResult = NotOpened | Opened(handle: FileHandle) | TableFull

  /** The table with the handle in its first free slot. */
  function Stored(files: seq<FileHandle?>, handle: FileHandle): seq<FileHandle?> {
    if files == [] then []
    else if files[0] == null then [handle] + files[1..]
    else [files[0]] + Stored(files[1..], handle)
  }

  /** The table with the handle's first slot freed. */
  function Removed(files: seq<FileHandle?>, handle: FileHandle): seq<FileHandle?> {
    if files == [] then []
    else if files[0] == handle then [null] + files[1..]
    else [files[0]] + Removed(files[1..], handle)
  }

  lemma {:induction false} StoredAt(files: seq<FileHandle?>, handle: FileHandle, i: nat)
    requires i < |files| && files[i] == null && null !in files[..i]
    ensures Stored(files, handle) == files[i := handle]
  {
    if i > 0 {
      assert files[0] in files[..i] && files[1..][..i - 1] == files[..i][1..];
      StoredAt(files[1..], handle, i - 1);
    }
  }

  lemma {:induction false} RemovedAt(files: seq<FileHandle?>, handle: FileHandle, i: nat)
    requires i < |files| && files[i] == handle && handle !in files[..i]
    ensures Removed(files, handle) == files[i := null]
  {
    if i > 0 {
      assert files[0] in files[..i] && files[1..][..i - 1] == files[..i][1..];
      RemovedAt(files[1..], handle, i - 1);
    }
  }

  /** Closing a file undoes its opening, and only that. */
  lemma {:induction false} CloseUndoesOpen(files: seq<FileHandle?>, handle: FileHandle)
    requires null in files && handle !in files
    ensures handle in Stored(files, handle) && Removed(Stored(files, handle), handle) == files
    ensures forall other :: other in files && other != null ==> other in Stored(files, handle)
  {
    var stored := Stored(files, handle);
    assert stored[1..] == if files[0] == null then files[1..] else Stored(files[1..], handle);
    if files[0] != null {
      CloseUndoesOpen(files[1..], handle);
      assert files == [files[0]] + files[1..];
    }
  }

  /** A process's view: the mounted root, its current directory, and the ghost tree of all vnodes. */
  class Vfs {
    var root: Vnode
    var cwd: Vnode
    /** The open files of the process; null is a free slot. */
    var files: seq<FileHandle?>
    ghost var tree: map<Path, Vnode>
    ghost var cwdPath: Path

    ghost predicate Valid()
      reads this, tree.Values
    {
      && TreeOk(tree) && [] in tree && tree[[]] == root && cwdPath in tree && tree[cwdPath] == cwd
      && forall p :: p in tree ==> |tree[p].content| < TWO_31
    }

    constructor ()
      ensures Valid() && FsOf(tree) == map[[] := Dir] && cwdPath == [] && fresh(tree.Values) && null in files
    {
      var dir := new Vnode(true, []);
      root, cwd, tree, cwdPath := dir, dir, map[[] := dir], [];
      files := seq(VFS_OPEN_FILES_LENGTH, i => null);
      new;
      assert files[0] == null;
      EmptyTree(dir);
    }

    /** add_to_dir and its effect on the whole tree. */
    method AddToDir(parent: Vnode, name: seq<byte>, child: Vnode, ghost p: Path)
      requires Valid() && cwdPath == [] && p != [] && Parent(p) in tree && tree[Parent(p)] == parent && parent.isDir
      requires name == p[|p| - 1] && child.entries == [] && child !in tree.Values && |child.content| < TWO_31
      modifies this`tree, parent`entries
      ensures Valid() && tree == old(PruneTree(tree, p))[p := child]
      ensures FsOf(tree) == Prune(old(FsOf(tree)), p)[p := if child.isDir then Dir else File(child.content)]
    {
      hide FsOk, Lookup, FsOf, Prune;
      ghost var entries := parent.entries;
      assert Linked(tree, Parent(p));
      parent.entries := [Entry(name, child)] + parent.entries;
      assert forall q :: q in tree && q != Parent(p) ==> tree[q] != parent;
      forall q | q in tree && q != Parent(p) ensures Linked(tree, q) {
        assert old(Linked(tree, q));
      }
      TreeWithNode(tree, p, child, entries);
      RootStays(tree, p, child);
      tree := PruneTree(tree, p)[p := child];
    }

    /** One round of the mount loop. */
    method MountEntry(image: seq<byte>, o: nat, ghost h: Header) returns (r: MountResult)
      requires Valid() && cwdPath == [] && HeaderAt(image, o, h)
      modifies this`tree, tree.Values
      ensures Valid() && fresh(tree.Values - old(tree.Values))
      ensures Says(r, AddEntry(old(FsOf(tree)), h), FsOf(tree))
    {
      hide FsOk, TreeOk, FsOf, Prune, TreePath, FieldAt, SizeField, AddEntry, Says, NodeOf;
      HeaderFields(image, o, h);
      FsPaths(tree);
      ghost var fs := FsOf(tree);
      if !IsValidHeader(image, o) {
        EntryRefused(fs, h);
        return Failed;
      }
      var filename := ReadString(image, o, 100, h.name);
      var found := LookupParent(root, filename, tree);
      if found.None? {
        EntryRefused(fs, h);
        return Failed;
      }
      var (parent, nm) := found.value;
      var node := CreateNode(image, o, h);
      if node.None? {
        EntryRefused(fs, h);
        return Failed;
      }
      EntryAdded(fs, h);
      if !parent.isDir {
        return Confused;
      }
      AddToDir(parent, nm, node.value, TreePath(h.name));
      r := Done;
    }

    /** create_file or create_dir; None for an empty file, whose content malloc refuses, and for other types. */
    method CreateNode(image: seq<byte>, o: nat, ghost h: Header) returns (node: Option<Vnode>)
      requires HeaderAt(image, o, h)
      ensures node.None? <==> NodeOf(h).None?
      ensures node.Some? ==> fresh(node.value) && node.value.entries == [] && |node.value.content| < TWO_31
      ensures node.Some? ==> NodeOf(h) == Some(if node.value.isDir then Dir else File(node.value.content))
    {
      hide FieldAt, SizeField;
      if image[o + 156] == 48 {
        var size := ReadSize(image, o, h);
        if size == 0 {
          return None;
        }
        var file := new Vnode(false, image[o + 512..o + 512 + size]);
        node := Some(file);
      } else if image[o + 156] == 53 {
        var dir := new Vnode(true, []);
        node := Some(dir);
      } else {
        node := None;
      }
    }

    /** fs_mount on the new root. */
    method Mount(image: seq<byte>, ghost hs: seq<Header>) returns (r: MountResult)
      requires Valid() && cwdPath == [] && FsOf(tree) == map[[] := Dir] && ArchiveAt(image, 0, hs)
      modifies this`tree, tree.Values
      ensures Valid() && fresh(tree.Values - old(tree.Values))
      ensures Says(r, Build(hs), FsOf(tree))
      ensures Listing(hs) ==> r == if NoEmptyFile(hs) then Done else Failed
    {
      hide *;
      var o: nat := 0;
      ghost var k := 0;
      assert hs[..0] == [] && hs[0..] == hs;
      BuildNothing();
      ListingSays(hs);
      ArchiveHead(image, 0, hs);
      while image[o] != 0
        invariant Valid() && fresh(tree.Values - old(tree.Values))
        invariant k <= |hs| && ArchiveAt(image, o, hs[k..]) && o < |image| && (image[o] == 0 <==> k == |hs|)
        invariant Build(hs[..k]) == Tree(FsOf(tree))
        decreases |hs| - k
      {
        ArchiveHead(image, o, hs[k..]);
        assert hs[k..][1..] == hs[k + 1..];
        BuildNext(hs, k);
        r := MountEntry(image, o, hs[k]);
        SaysWhat(r, AddEntry(Build(hs[..k]).fs, hs[k]), FsOf(tree));
        if r != Done {
          BuildStops(hs, k + 1);
          SaysWhat(r, Build(hs), FsOf(tree));
          return;
        }
        var size := ReadSize(image, o, hs[k]);
        NextHeaderSpans(o, size);
        o := NextHeader(o, size);
        k := k + 1;
        ArchiveHead(image, o, hs[k..]);
      }
      assert hs[..k] == hs;
      r := Done;
      SaysWhat(r, Build(hs), FsOf(tree));
    }

    /** The path walk of vn_open. */
    method WalkPath(path: seq<byte>) returns (r: Option<Vnode>)
      requires Valid() && 0 !in path && path != []
      ensures r == if Resolve(path) in tree then Some(tree[Resolve(path)]) else None
    {
      hide TreeOk, TokenTexts, SkipDelims, SkipToken;
      var node, length := if path[0] == SLASH then root else cwd, |path|;
      var workpath := new byte[length + 1](i requires 0 <= i <= length => if i < length then path[i] else 0);
      ghost var s, e, p := workpath[..], length, if path[0] == SLASH then [] else cwdPath;
      CopiedTexts(s, path);
      var element, saveptr := Walk(workpath, Some(0), 0, e, s);
      while element.Some?
        invariant Walking(s, workpath[..], saveptr, e)
        invariant p in tree && node == tree[p]
        invariant element.None? ==> Resolve(path) == p
        invariant element.Some? ==> Resolve(path) == p + [element.value] + TokenTexts(s, saveptr, e)
        decreases element.Some?, e - saveptr
      {
        WalkStep(tree, p, element.value);
        var next := NodeLookup(node, element.value);
        if next.None? {
          WalkFails(tree, p + [element.value], Resolve(path));
          return None;
        }
        p := p + [element.value];
        node := next.value;
        element, saveptr := Walk(workpath, None, saveptr, e, s);
      }
      r := Some(node);
    }

    /** What a joined name resolves to: from the root behind a slash, from the current directory without one. */
    lemma ResolveNames(path: seq<byte>, segs: Path)
      requires PathOk(segs) && segs != []
      ensures path == [47] + Join(segs) ==> Resolve(path) == segs
      ensures path == Join(segs) ==> Resolve(path) == cwdPath + segs
      ensures path == [47] + Join(segs) || path == Join(segs) ==> path != [] && path[|path| - 1] != 47 && 0 !in path
    {
      hide Join, TokenTexts, PathOk;
      if path == [47] + Join(segs) {
        AbsolutePath(path, segs);
        assert [] + TokenTexts(path, 0, |path|) == segs;
      } else if path == Join(segs) {
        RelativePath(path, segs);
      }
    }

    /** vn_open: a handle for the named vnode, entered in the process's table of open files. */
    method VnOpen(path: seq<byte>) returns (r: OpenResult)
      requires Valid() && 0 !in path
      modifies this`files
      ensures r.NotOpened? <==> path == [] || path[|path| - 1] == 47 || Resolve(path) !in tree
      ensures r.TableFull? <==> !r.NotOpened? && null !in old(files)
      ensures r.Opened? ==> fresh(r.handle) && r.handle.Valid() && r.handle.pos == 0 && r.handle.node == tree[Resolve(path)]
      ensures files == if r.Opened? then Stored(old(files), r.handle) else old(files)
    {
      hide TreeOk;
      var length := |path|;
      if length == 0 || path[length - 1] == SLASH {
        return NotOpened;
      }
      var node := WalkPath(path);
      if node.None? {
        return NotOpened;
      }
      var handle := new FileHandle(node.value);
      var ok := PutFileHandle(handle);
      r := if ok then Opened(handle) else TableFull;
    }

    /** put_file_handle: the first free slot; false stands for the panic. */
    method PutFileHandle(handle: FileHandle) returns (ok: bool)
      modifies this`files
      ensures ok <==> null in old(files)
      ensures files == if ok then Stored(old(files), handle) else old(files)
    {
      var i := 0;
      while i < |files|
        invariant i <= |files| && files == old(files) && null !in files[..i]
      {
        if files[i] == null {
          StoredAt(files, handle, i);
          files := files[i := handle];
          return true;
        }
        i := i + 1;
      }
      ok := false;
    }

    /** vn_close's remove_file_handle; false stands for the panic. */
    method RemoveFileHandle(handle: FileHandle) returns (ok: bool)
      modifies this`files
      ensures ok <==> handle in old(files)
      ensures files == if ok then Removed(old(files), handle) else old(files)
    {
      var i := 0;
      while i < |files|
        invariant i <= |files| && files == old(files) && handle !in files[..i]
      {
        if files[i] == handle {
          RemovedAt(files, handle, i);
          files := files[i := null];
          return true;
        }
        i := i + 1;
      }
      ok := false;
    }

    /** The absolute path a name stands for: its tokens below the root or the current directory. */
    ghost function Resolve(path: seq<byte>): Path
      reads this`cwdPath
    {
      (if path != [] && path[0] == SLASH then [] else cwdPath) + TokenTexts(path, 0, |path|)
    }
  }

  /** The rest of the working copy is as in the original string s. */
  ghost predicate Walking(s: seq<byte>, b: seq<byte>, save: nat, e: nat) {
    StringAt(b, save, e) && |b| == |s| && forall k :: save <= k <= e ==> b[k] == s[k]
  }

  /** The text of the next path element. */
  method Walk(buf: array<byte>, str: Option<nat>, saveptr: nat, ghost e: nat, ghost s: seq<byte>)
    returns (element: Option<seq<byte>>, save: nat)
    requires (str.Some? ==> str.value == saveptr) && Walking(s, buf[..], saveptr, e)
    modifies buf
    ensures Walking(s, buf[..], save, e)
    ensures element.None? ==> TokenTexts(s, saveptr, e) == []
    ensures element.Some? ==> saveptr < save && TokenTexts(s, saveptr, e) == [element.value] + TokenTexts(s, save, e)
  {
    hide *;
    ghost var b := buf[..];
    WalkToken(s, b, saveptr, e);
    var token;
    token, save := StrtokR(buf, str, [SLASH], saveptr, e);
    if token.None? {
      return None, save;
    }
    ghost var i := token.value;
    ghost var j := SkipToken(b, i, e, [SLASH]);
    var text := ReadString(buf[..], token.value, j - i + 1, s[i..j]);
    element := Some(text);
  }

  /** One call of strtok_r on the working copy b, in terms of the original string s. */
  lemma WalkToken(s: seq<byte>, b: seq<byte>, p: nat, e: nat)
    requires Walking(s, b, p, e)
    ensures StringAt(b, p, e) && p <= e < |b| && e <= |s|
    ensures var i := SkipDelims(b, p, e, [SLASH]);
      var j := SkipToken(b, i, e, [SLASH]);
      var b', save := if j == e then b else b[j := 0], if j == e then e else j + 1;
      && Walking(s, b', save, e) && (i == e ==> TokenTexts(s, p, e) == [])
      && (i < e ==> i < j && p < save && TokenTexts(s, p, e) == [s[i..j]] + TokenTexts(s, save, e) && FieldAt(b', i, j - i + 1, s[i..j]))
  {
    hide SkipDelims, SkipToken, TokenTexts, FieldAt;
    SkipFrame2(s, b, p, e, [SLASH]);
    TextsUnfold(s, p, e);
    var i := SkipDelims(b, p, e, [SLASH]);
    var j := SkipToken(b, i, e, [SLASH]);
    if i < e {
      TokenText(s, b, i, j, e);
    }
  }

  lemma TokenText(s: seq<byte>, b: seq<byte>, i: nat, j: nat, e: nat)
    requires i < j <= e < |b| == |s| && b[e] == 0 && forall k :: i <= k < e ==> b[k] == s[k] && b[k] != 0
    ensures FieldAt(if j == e then b else b[j := 0], i, j - i + 1, s[i..j])
  {
    var b' := if j == e then b else b[j := 0];
    assert b'[i..j] == s[i..j];
  }

  /** Splitting the NUL-terminated copy is splitting the path. */
  lemma CopiedTexts(s: seq<byte>, path: seq<byte>)
    requires s == path + [0] && 0 !in path
    ensures Walking(s, s, 0, |path|) && TokenTexts(s, 0, |path|) == TokenTexts(path, 0, |path|)
  {
    TextsFrame(s, path, 0);
  }

  lemma {:induction false} TextsFrame(s: seq<byte>, path: seq<byte>, p: nat)
    requires s == path + [0] && p <= |path|
    ensures TokenTexts(s, p, |path|) == TokenTexts(path, p, |path|)
    decreases |path| - p
  {
    hide SkipDelims, SkipToken, TokenTexts;
    var e := |path|;
    SkipFrame2(s, path, p, e, [SLASH]);
    TextsUnfold(s, p, e);
    TextsUnfold(path, p, e);
    var i := SkipDelims(s, p, e, [SLASH]);
    if i < e {
      var j := SkipToken(s, i, e, [SLASH]);
      assert s[i..j] == path[i..j];
      TextsFrame(s, path, if j == e then e else j + 1);
    }
  }

  lemma FsPaths(tree: map<Path, Vnode>)
    ensures forall p :: p in FsOf(tree) <==> p in tree
    ensures forall p :: p in tree ==> (FsOf(tree)[p] == Dir <==> tree[p].isDir)
  {
  }

  /** is_empty_header tells the end of the archive. */
  lemma ArchiveHead(image: seq<byte>, o: nat, hs: seq<Header>)
    requires ArchiveAt(image, o, hs)
    ensures o < |image| && (image[o] == 0 <==> hs == [])
    ensures hs != [] ==> HeaderAt(image, o, hs[0]) && ArchiveAt(image, o + Span(|hs[0].content|), hs[1..])
  {
    hide IsValidHeader, SizeField;
    if hs != [] {
      FieldByte(image, o, 100, hs[0].name, 0);
    }
  }

  lemma BuildNothing()
    ensures Build([]) == Tree(map[[] := Dir])
  {
  }

  /**
   * Mounting a well-formed archive, opening one of its files, by its path from the root or from the current
   * directory, and reading to EOF gives that file's bytes.
   */
  method ReadBack(image: seq<byte>, path: seq<byte>, ghost hs: seq<Header>, ghost k: nat) returns (data: seq<byte>)
    requires ArchiveAt(image, 0, hs) && WellFormed(hs)
    requires k < |hs| && hs[k].kind == 48
    requires path == [47] + Join(TreePath(hs[k].name)) || path == Join(TreePath(hs[k].name))
    ensures data == hs[k].content
  {
    hide TreeOk, FsOf, Listing, NoEmptyFile, Plain, Build, ArchiveAt, Join, TokenTexts, TreePath, PathOk, TreeOf, FsOk, Says;
    var vfs := new Vfs();
    ListingMounts(hs);
    var r := vfs.Mount(image, hs);
    SaysWhat(r, Build(hs), FsOf(vfs.tree));
    assert r == Done;
    PlainPath(hs[k].name);
    vfs.ResolveNames(path, TreePath(hs[k].name));
    assert [] + TreePath(hs[k].name) == TreePath(hs[k].name);
    FileThere(hs, k, vfs.tree);
    var result := vfs.VnOpen(path);
    data := result.handle.ReadToEof();
  }

  lemma PlainPath(name: seq<byte>)
    requires Plain(name)
    ensures PathOk(TreePath(name)) && TreePath(name) != []
  {
  }

  lemma RelativePath(path: seq<byte>, segs: Path)
    requires path == Join(segs) && PathOk(segs) && segs != []
    ensures path != [] && TokenTexts(path, 0, |path|) == segs && path[0] != SLASH && path[|path| - 1] != SLASH && 0 !in path
  {
    hide Join, TokenTexts, PathOk;
    JoinLast(segs);
    NoNul(segs);
    assert path[0..|path|] == Join(segs);
    TokensOfJoin(path, 0, |path|, segs);
    FirstByte(segs);
  }

  lemma FirstByte(segs: Path)
    requires PathOk(segs) && segs != []
    ensures Join(segs) != [] && Join(segs)[0] != SLASH
  {
    assert Join(segs)[0] == segs[0][0] && segs[0][0] in segs[0];
  }

  lemma AbsolutePath(path: seq<byte>, segs: Path)
    requires path == [SLASH] + Join(segs) && PathOk(segs) && segs != []
    ensures TokenTexts(path, 0, |path|) == segs && path[|path| - 1] != SLASH && 0 !in path
  {
    hide Join, TokenTexts, PathOk;
    JoinLast(segs);
    NoNul(segs);
    assert path[1..|path|] == Join(segs);
    TokensOfJoin(path, 1, |path|, segs);
    SlashFirst(path);
  }

  lemma SlashFirst(path: seq<byte>)
    requires |path| > 1 && path[0] == SLASH
    ensures TokenTexts(path, 0, |path|) == TokenTexts(path, 1, |path|)
  {
    hide SkipToken, TokenTexts;
    var i := SkipDelims(path, 0, |path|, [SLASH]);
    assert i == SkipDelims(path, 1, |path|, [SLASH]);
    TextsUnfold(path, 0, |path|);
    TextsUnfold(path, 1, |path|);
  }

  lemma {:induction false} NoNul(segs: Path)
    requires PathOk(segs)
    ensures 0 !in Join(segs)
  {
    if |segs| > 1 {
      NoNul(segs[1..]);
    }
  }

  lemma FileThere(hs: seq<Header>, k: nat, tree: map<Path, Vnode>)
    requires k < |hs| && TreeOf(hs, FsOf(tree)) && hs[k].kind == REGULAR
    ensures var p := TreePath(hs[k].name); p in tree && !tree[p].isDir && tree[p].content == hs[k].content
  {
    hide TreePath;
    assert Some(FsOf(tree)[TreePath(hs[k].name)]) == NodeOf(hs[k]);
  }

  lemma EmptyTree(dir: Vnode)
    requires dir.isDir && dir.entries == []
    ensures TreeOk(map[[] := dir]) && FsOf(map[[] := dir]) == map[[] := Dir]
  {
  }

  lemma RootStays(tree: map<Path, Vnode>, p: Path, node: Vnode)
    requires p != [] && [] in tree
    ensures [] in PruneTree(tree, p)[p := node] && PruneTree(tree, p)[p := node][[]] == tree[[]]
  {
  }
}
