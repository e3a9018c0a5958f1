/** ustar archives and the file tree they stand for (kernel/src/all/kernel/vfs/tarfs.c). */
module TarSpec {
  import opened Words
  import opened Options
  import opened Strtok

  type Path = seq<seq<byte>>

  /** What the mount loop reads of one header, and the bytes behind it. */
  datatype Header = Header(name: seq<byte>, valid: bool, kind: byte, content: seq<byte>)

  const REGULAR: byte := 48    // '0'
  const DIRECTORY: byte := 53  // '5'

  // ----- octal numbers

  function OctalValue(digits: seq<byte>): int {
    if digits == [] then 0 else OctalValue(digits[..|digits| - 1]) * 8 + (digits[|digits| - 1] as int - 48)
  }

  predicate OctalDigits(digits: seq<byte>) {
    forall k :: 0 <= k < |digits| ==> 48 <= digits[k] < 56
  }

  lemma {:induction false} OctalPrefix(digits: seq<byte>, k: nat)
    requires OctalDigits(digits) && k <= |digits|
    ensures 0 <= OctalValue(digits[..k]) <= OctalValue(digits)
    decreases |digits| - k
  {
    if k == |digits| {
      assert digits[..k] == digits;
      OctalNonNegative(digits);
    } else {
      OctalPrefix(digits, k + 1);
      OctalNonNegative(digits[..k]);
      assert digits[..k + 1][..k] == digits[..k];
    }
  }

  lemma {:induction false} OctalNonNegative(digits: seq<byte>)
    requires OctalDigits(digits)
    ensures OctalValue(digits) >= 0
  {
    if digits != [] {
      OctalNonNegative(digits[..|digits| - 1]);
    }
  }

  /** read_octal on any text, in 32-bit arithmetic on signed characters. */
  function OctalWord(text: seq<byte>): int {
    if text == [] then 0
    else
      var c: int := text[|text| - 1];
      ToI32(OctalWord(text[..|text| - 1]) * 8 + (if c < 128 then c else c - 256) - 48)
  }

  /** On octal digits it is their value, as long as that fits. */
  lemma {:induction false} OctalWordExact(digits: seq<byte>)
    requires OctalDigits(digits) && OctalValue(digits) < TWO_31
    ensures OctalWord(digits) == OctalValue(digits)
  {
    hide ToI32;
    if digits != [] {
      var k := |digits| - 1;
      OctalPrefix(digits, k);
      OctalNonNegative(digits);
      OctalWordExact(digits[..k]);
      SmallWord(OctalValue(digits));
    }
  }

  lemma SmallWord(x: int)
    requires 0 <= x < TWO_31
    ensures ToI32(x) == x
  {
  }

  // ----- names

  /** The name without one trailing slash. */
  function Trimmed(name: seq<byte>): nat {
    if name != [] && name[|name| - 1] == SLASH then |name| - 1 else |name|
  }

  /**
   * The segments lookup_parent goes through from p on: all but the last are looked up, the last is the new
   * name.  Empty segments count, and a name that still ends in a slash repeats its last segment.
   */
  function Segments(s: seq<byte>, p: nat, e: nat): (path: Path)
    requires p <= e <= |s|
    ensures path != []
    decreases e - p
  {
    var j := SkipToken(s, p, e, [SLASH]);
    if j == e then [s[p..j]]
    else if j + 1 == e then [s[p..j], s[p..j]]
    else [s[p..j]] + Segments(s, j + 1, e)
  }

  /** The path a header's name stands for. */
  function TreePath(name: seq<byte>): (path: Path)
    ensures path != []
  {
    Segments(name, 0, Trimmed(name))
  }

  /** No empty segments, and at most one slash behind. */
  predicate Plain(name: seq<byte>) {
    PathOk(TreePath(name)) && (name == Join(TreePath(name)) || name == Join(TreePath(name)) + [SLASH])
  }

  /** For joined paths both splitters agree: these are also the tokens strtok_r finds. */
  lemma {:induction false} SegmentsOfJoin(s: seq<byte>, p: nat, e: nat, segs: Path)
    requires p <= e <= |s| && s[p..e] == Join(segs) && PathOk(segs) && segs != []
    ensures Segments(s, p, e) == segs && TokenTexts(s, p, e) == segs
    decreases |segs|
  {
    hide Join, SkipDelims, SkipToken, PathOk, TokenTexts;
    TokensOfJoin(s, p, e, segs);
    FirstSegment(s, p, e, segs);
    PathTail(segs);
    if |segs| > 1 {
      var j := p + |segs[0]|;
      FirstSegment(s, j + 1, e, segs[1..]);
      SegmentsOfJoin(s, j + 1, e, segs[1..]);
    }
  }

  lemma PathTail(segs: Path)
    requires PathOk(segs) && segs != []
    ensures PathOk(segs[1..]) && segs == [segs[0]] + segs[1..]
  {
  }

  /** Every path without empty segments is the path of its joined name, with or without a slash behind. */
  lemma JoinedName(segs: Path)
    requires PathOk(segs) && segs != []
    ensures TreePath(Join(segs)) == segs && TreePath(Join(segs) + [SLASH]) == segs
  {
    hide Join, PathOk, Segments, TokenTexts;
    JoinLast(segs);
    var s := Join(segs);
    TrimmedName(s);
    SegmentsOfJoin(s, 0, |s|, segs);
    SegmentsOfJoin(s + [SLASH], 0, |s|, segs);
  }

  lemma TrimmedName(s: seq<byte>)
    requires s != [] && s[|s| - 1] != SLASH
    ensures Trimmed(s) == Trimmed(s + [SLASH]) == |s| && s[0..|s|] == s && (s + [SLASH])[0..|s|] == s
  {
  }

  lemma {:induction false} JoinLast(segs: Path)
    requires segs != [] && PathOk(segs)
    ensures Join(segs) != [] && Join(segs)[|Join(segs)| - 1] != SLASH
  {
    if |segs| > 1 {
      JoinLast(segs[1..]);
    }
  }

  // ----- the image

  predicate HeaderOk(h: Header) {
    0 < |h.name| < 100 && |h.content| < TWO_31
  }

  /** The text s stands at o, closed by a NUL, within a field of n bytes. */
  predicate FieldAt(image: seq<byte>, o: nat, n: nat, s: seq<byte>) {
    |s| < n && o + n <= |image| && image[o..o + |s|] == s && image[o + |s|] == 0 && 0 !in s
  }

  /** is_valid_header: magic "ustar" and version "00". */
  predicate IsValidHeader(image: seq<byte>, o: nat)
    requires o + 512 <= |image|
  {
    image[o + 257..o + 263] == [117, 115, 116, 97, 114, 0] && image[o + 263] == 48 && image[o + 264] == 48
  }

  ghost predicate HeaderAt(image: seq<byte>, o: nat, h: Header) {
    && HeaderOk(h) && o + 512 + |h.content| <= |image|
    && FieldAt(image, o, 100, h.name)
    && (exists digits :: SizeField(image, o, digits, |h.content|))
    && image[o + 156] == h.kind && (h.valid <==> IsValidHeader(image, o))
    && image[o + 512..o + 512 + |h.content|] == h.content
  }

  ghost predicate SizeField(image: seq<byte>, o: nat, digits: seq<byte>, size: nat) {
    OctalDigits(digits) && FieldAt(image, o + 124, 12, digits) && OctalValue(digits) == size
  }

  /** A header block and its content, rounded up to 512-byte blocks. */
  function Span(size: nat): nat {
    512 + (size + 511) / 512 * 512
  }

  /** From o the image is the headers hs, closed by an empty one. */
  ghost predicate ArchiveAt(image: seq<byte>, o: nat, hs: seq<Header>)
    decreases |hs|
  {
    if hs == [] then o < |image| && image[o] == 0
    else HeaderAt(image, o, hs[0]) && ArchiveAt(image, o + Span(|hs[0].content|), hs[1..])
  }

  // ----- the tree

  datatype Node = Dir | File(content: seq<byte>)

  /** A file system by absolute paths; the root is the empty path. */
  type Fs = map<Path, Node>

  function Parent(p: Path): Path
    requires p != []
  {
    p[..|p| - 1]
  }

  /** Every path but the root hangs below a directory. */
  ghost predicate FsOk(fs: Fs) {
    && [] in fs && fs[[]] == Dir
    && forall p :: p in fs && p != [] ==> Parent(p) in fs && fs[Parent(p)] == Dir
  }

  /** p and everything below it gone. */
  function Prune(fs: Fs, p: Path): Fs {
    map q | q in fs && !(p <= q) :: fs[q]
  }

  /** The node a header creates; malloc(0) is NULL, so an empty regular file is none. */
  function NodeOf(h: Header): Option<Node> {
    if h.kind == REGULAR then (if h.content == [] then None else Some(File(h.content)))
    else if h.kind == DIRECTORY then Some(Dir)
    else None
  }

  /** Corrupted: the code would take a regular file's data for a directory's and write through it. */
  datatype Mounted = Refused | Corrupted | Tree(fs: Fs)

  /** One round of the mount loop. */
  function AddEntry(fs: Fs, h: Header): Mounted {
    var p := TreePath(h.name);
    if !h.valid || Parent(p) !in fs || NodeOf(h).None? then Refused
    else if fs[Parent(p)] != Dir then Corrupted
    else Tree(Prune(fs, p)[p := NodeOf(h).value])
  }

  function Build(hs: seq<Header>): Mounted {
    if hs == [] then Tree(map[[] := Dir])
    else
      var m := Build(hs[..|hs| - 1]);
      if m.Tree? then AddEntry(m.fs, hs[|hs| - 1]) else m
  }

  /** Once the mount loop has stopped, no further header matters. */
  lemma {:induction false} BuildStops(hs: seq<Header>, k: nat)
    requires k <= |hs| && !Build(hs[..k]).Tree?
    ensures Build(hs) == Build(hs[..k])
    decreases |hs|
  {
    if k == |hs| {
      assert hs[..k] == hs;
    } else {
      assert hs[..|hs| - 1][..k] == hs[..k];
      BuildStops(hs[..|hs| - 1], k);
    }
  }

  /** Whatever the archive, the tree is well formed. */
  lemma {:induction false} BuildOk(hs: seq<Header>)
    ensures Build(hs).Tree? ==> FsOk(Build(hs).fs)
  {
    hide FsOk, Prune, TreePath;
    if hs == [] {
      RootOk();
    } else {
      BuildOk(hs[..|hs| - 1]);
      if Build(hs).Tree? {
        AddEntryOk(Build(hs[..|hs| - 1]).fs, hs[|hs| - 1]);
      }
    }
  }

  lemma RootOk()
    ensures FsOk(map[[] := Dir])
  {
  }

  lemma AddEntryOk(fs: Fs, h: Header)
    requires FsOk(fs) && AddEntry(fs, h).Tree?
    ensures FsOk(AddEntry(fs, h).fs)
  {
    hide FsOk, TreePath, Prune;
    PrunedFsOk(fs, TreePath(h.name), NodeOf(h).value);
  }

  lemma PrunedFsOk(fs: Fs, p: Path, node: Node)
    requires FsOk(fs) && p != [] && Parent(p) in fs && fs[Parent(p)] == Dir
    ensures FsOk(Prune(fs, p)[p := node])
  {
    var fs' := Prune(fs, p)[p := node];
    forall q | q in fs' && q != [] ensures Parent(q) in fs' && fs'[Parent(q)] == Dir {
      BelowParent(p, q);
      if q != p {
        assert q in fs && !(p <= q);
      } else {
        assert !(p <= Parent(p));
      }
    }
  }

  lemma BelowParent(p: Path, q: Path)
    requires q != []
    ensures p <= Parent(q) ==> p <= q
    ensures p <= q && p != q ==> p <= Parent(q)
  {
  }

  // ----- well-formed archives

  /** Ustar magic, regular files or directories, distinct paths, parents listed before. */
  ghost predicate Listing(hs: seq<Header>) {
    && (forall k :: 0 <= k < |hs| ==> hs[k].valid && hs[k].kind in {REGULAR, DIRECTORY} && TreePath(hs[k].name) != [])
    && (forall k, m :: 0 <= k < m < |hs| ==> TreePath(hs[k].name) != TreePath(hs[m].name))
    && (forall k :: 0 <= k < |hs| ==> ParentListed(hs, k))
  }

  predicate EmptyFile(h: Header) {
    h.kind == REGULAR && h.content == []
  }

  predicate NoEmptyFile(hs: seq<Header>) {
    forall k :: 0 <= k < |hs| ==> !EmptyFile(hs[k])
  }

  /** A listing of non-empty files and directories with plain names. */
  ghost predicate WellFormed(hs: seq<Header>) {
    Listing(hs) && NoEmptyFile(hs) && forall k :: 0 <= k < |hs| ==> Plain(hs[k].name)
  }

  ghost predicate ParentListed(hs: seq<Header>, k: nat)
    requires k < |hs|
  {
    var parent := Parent(TreePath(hs[k].name));
    parent == [] || exists m :: 0 <= m < k && TreePath(hs[m].name) == parent && hs[m].kind == DIRECTORY
  }

  /** The tree of a listing: the root and one node per header. */
  ghost predicate TreeOf(hs: seq<Header>, fs: Fs) {
    && [] in fs && fs[[]] == Dir
    && (forall k :: 0 <= k < |hs| ==> TreePath(hs[k].name) in fs && Some(fs[TreePath(hs[k].name)]) == NodeOf(hs[k]))
    && (forall p :: p in fs ==> p == [] || exists k :: 0 <= k < |hs| && TreePath(hs[k].name) == p)
  }

  /** Nothing hangs below a path that is not there. */
  lemma {:induction false} NothingBelow(fs: Fs, p: Path, q: Path)
    requires FsOk(fs) && p !in fs && q in fs
    ensures !(p <= q)
    decreases |q|
  {
    if q != [] {
      BelowParent(p, q);
      NothingBelow(fs, p, Parent(q));
    } else {
      assert p != [];
    }
  }

  lemma PruneNew(fs: Fs, p: Path)
    requires FsOk(fs) && p !in fs
    ensures Prune(fs, p) == fs
  {
    forall q | q in fs ensures !(p <= q) {
      NothingBelow(fs, p, q);
    }
  }

  lemma ListingPrefix(hs: seq<Header>, k: nat)
    requires Listing(hs) && k <= |hs|
    ensures Listing(hs[..k])
  {
    hide TreePath;
    var init := hs[..k];
    forall m | 0 <= m < |init| ensures ParentListed(init, m) {
      assert ParentListed(hs, m);
      var parent := Parent(TreePath(hs[m].name));
      if parent != [] {
        var j :| 0 <= j < m && TreePath(hs[j].name) == parent && hs[j].kind == DIRECTORY;
        assert init[j] == hs[j];
      }
    }
  }

  /** A listing without empty files mounts, and its tree has exactly its entries. */
  lemma {:induction false} ListingMounts(hs: seq<Header>)
    requires Listing(hs) && NoEmptyFile(hs)
    ensures Build(hs).Tree? && TreeOf(hs, Build(hs).fs) && FsOk(Build(hs).fs)
  {
    hide Listing, TreeOf, FsOk, TreePath, AddEntry;
    if hs == [] {
      RootOk();
      RootOnly();
    } else {
      var k := |hs| - 1;
      ListingPrefix(hs, k);
      ListingMounts(hs[..k]);
      TreeStep(hs, Build(hs[..k]).fs);
    }
  }

  lemma RootOnly()
    ensures TreeOf([], map[[] := Dir])
  {
  }

  lemma TreeStep(hs: seq<Header>, fs: Fs)
    requires Listing(hs) && hs != [] && TreeOf(hs[..|hs| - 1], fs) && FsOk(fs) && !EmptyFile(hs[|hs| - 1])
    ensures var m := AddEntry(fs, hs[|hs| - 1]); m.Tree? && TreeOf(hs, m.fs) && FsOk(m.fs)
  {
    hide TreePath, FsOk, Listing, TreeOf, Prune;
    var k := |hs| - 1;
    var h := hs[k];
    var p := TreePath(h.name);
    LastEntry(hs, fs);
    PruneNew(fs, p);
    AddEntryOk(fs, h);
    TreeGrows(hs, fs, p);
  }

  lemma TreeGrows(hs: seq<Header>, fs: Fs, p: Path)
    requires hs != [] && TreeOf(hs[..|hs| - 1], fs) && p == TreePath(hs[|hs| - 1].name) && p !in fs && p != []
    requires NodeOf(hs[|hs| - 1]).Some?
    ensures TreeOf(hs, fs[p := NodeOf(hs[|hs| - 1]).value])
  {
    hide TreePath;
    var k := |hs| - 1;
    var init, fs' := hs[..k], fs[p := NodeOf(hs[k]).value];
    forall m | 0 <= m < |hs| ensures TreePath(hs[m].name) in fs' && Some(fs'[TreePath(hs[m].name)]) == NodeOf(hs[m]) {
      assert m < k ==> init[m] == hs[m];
    }
    forall q | q in fs' ensures q == [] || exists m :: 0 <= m < |hs| && TreePath(hs[m].name) == q {
      if q != p && q != [] {
        var m :| 0 <= m < |init| && TreePath(init[m].name) == q;
        assert hs[m] == init[m];
      }
    }
  }

  /** The last header of a listing: a new path, below a directory. */
  lemma LastEntry(hs: seq<Header>, fs: Fs)
    requires Listing(hs) && hs != [] && TreeOf(hs[..|hs| - 1], fs)
    ensures var h := hs[|hs| - 1];
      var p := TreePath(h.name);
      h.valid && (EmptyFile(h) <==> NodeOf(h).None?) && p !in fs && Parent(p) in fs && fs[Parent(p)] == Dir
  {
    hide TreePath;
    var k := |hs| - 1;
    var init, p := hs[..k], TreePath(hs[k].name);
    assert ParentListed(hs, k);
    if Parent(p) != [] {
      var m :| 0 <= m < k && TreePath(hs[m].name) == Parent(p) && hs[m].kind == DIRECTORY;
      assert init[m] == hs[m];
    }
    assert forall m :: 0 <= m < k ==> TreePath(init[m].name) != p;
  }

  /** Of the listings, mount refuses exactly those with an empty regular file, and none goes wrong. */
  lemma {:induction false} MountsIffNoEmptyFile(hs: seq<Header>)
    requires Listing(hs)
    ensures Build(hs).Tree? <==> NoEmptyFile(hs)
    ensures !Build(hs).Corrupted?
  {
    hide Listing, TreeOf, FsOk, TreePath, AddEntry;
    if hs != [] {
      var k := |hs| - 1;
      ListingPrefix(hs, k);
      MountsIffNoEmptyFile(hs[..k]);
      PrefixFiles(hs);
      if Build(hs[..k]).Tree? {
        ListingMounts(hs[..k]);
        LastRound(hs, Build(hs[..k]).fs);
      }
    }
  }

  lemma PrefixFiles(hs: seq<Header>)
    requires hs != []
    ensures NoEmptyFile(hs) <==> NoEmptyFile(hs[..|hs| - 1]) && !EmptyFile(hs[|hs| - 1])
  {
    var init := hs[..|hs| - 1];
    assert forall k :: 0 <= k < |init| ==> init[k] == hs[k];
  }

  lemma LastRound(hs: seq<Header>, fs: Fs)
    requires Listing(hs) && hs != [] && TreeOf(hs[..|hs| - 1], fs)
    ensures var m := AddEntry(fs, hs[|hs| - 1]); (m.Tree? <==> !EmptyFile(hs[|hs| - 1])) && !m.Corrupted?
  {
    hide TreePath, Listing, TreeOf, Prune;
    LastEntry(hs, fs);
  }

  lemma BuildNext(hs: seq<Header>, k: nat)
    requires k < |hs| && Build(hs[..k]).Tree?
    ensures Build(hs[..k + 1]) == AddEntry(Build(hs[..k]).fs, hs[k])
  {
    assert hs[..k + 1][..k] == hs[..k];
  }
}
