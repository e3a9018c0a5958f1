/** What an archive, its names and its tree are, in terms of the format and of the headers themselves. */
module TarLaws {
  import opened Words
  import opened Options
  import opened Strtok
  import opened TarSpec

  // ----- the format

  /**
   * A header block of the ustar format, "ustar Interchange Format" of the pax utility in IEEE Std 1003.1: name
   * at 0, size in octal at 124, type at 156, magic and version at 257, content from 512 on.
   */
  lemma UstarFields(image: seq<byte>, o: nat, h: Header)
    ensures HeaderAt(image, o, h) <==>
      && 0 < |h.name| < 100 && |h.content| < 0x8000_0000 && o + 512 + |h.content| <= |image|
      && image[o..o + |h.name|] == h.name && image[o + |h.name|] == 0 && 0 !in h.name
      && (exists digits :: SizeText(image, o, digits, |h.content|))
      && image[o + 156] == h.kind
      && (h.valid <==> image[o + 257..o + 265] == [117, 115, 116, 97, 114, 0, 48, 48])
      && image[o + 512..o + 512 + |h.content|] == h.content
  {
    hide OctalValue, OctalDigits;
    if o + 512 + |h.content| <= |image| {
      MagicText(image, o);
      forall digits ensures SizeText(image, o, digits, |h.content|) <==> SizeField(image, o, digits, |h.content|) {
        SizeTextIs(image, o, digits, |h.content|);
      }
    }
  }

  /** The size field holds these digits, closed by a NUL, and they stand for the size. */
  ghost predicate SizeText(image: seq<byte>, o: nat, digits: seq<byte>, size: nat) {
    && |digits| < 12 && o + 136 <= |image|
    && image[o + 124..o + 124 + |digits|] == digits && image[o + 124 + |digits|] == 0
    && (forall k :: 0 <= k < |digits| ==> 48 <= digits[k] <= 55) && OctalValue(digits) == size
  }

  lemma SizeTextIs(image: seq<byte>, o: nat, digits: seq<byte>, size: nat)
    ensures SizeText(image, o, digits, size) <==> SizeField(image, o, digits, size)
    ensures SizeField(image, o, digits, size) <==>
      (|digits| < 12 && o + 136 <= |image| && image[o + 124..o + 124 + |digits|] == digits && image[o + 124 + |digits|] == 0 &&
       (forall k :: 0 <= k < |digits| ==> 48 <= digits[k] <= 55) && OctalValue(digits) == size)
  {
    hide OctalValue;
  }

  lemma MagicText(image: seq<byte>, o: nat)
    requires o + 512 <= |image|
    ensures IsValidHeader(image, o) <==> image[o + 257..o + 265] == [117, 115, 116, 97, 114, 0, 48, 48]
  {
    var m := image[o + 257..o + 265];
    assert m[..6] == image[o + 257..o + 263];
    assert m == m[..6] + [m[6], m[7]];
  }

  /** Octal numbers, digit by digit. */
  lemma OctalAppend(digits: seq<byte>, d: byte)
    ensures OctalValue([]) == 0 && OctalValue(digits + [d]) == 8 * OctalValue(digits) + d as int - 48
  {
    assert (digits + [d])[..|digits|] == digits;
  }

  /** A header takes one block, its content as many as it needs and no more. */
  lemma SpanLeast(size: nat)
    ensures Span(size) % 512 == 0 && 512 + size <= Span(size) < 1024 + size
  {
  }

  // ----- names

  /** Joined segments, slash by slash. */
  lemma JoinSplit(segs: Path)
    ensures |segs| == 1 ==> Join(segs) == segs[0]
    ensures |segs| > 1 ==> Join(segs) == segs[0] + [47] + Join(segs[1..])
  {
  }

  ghost predicate NoSlash(segs: Path) {
    forall k :: 0 <= k < |segs| ==> 47 !in segs[k]
  }

  lemma NoSlashCons(seg: seq<byte>, segs: Path)
    requires 47 !in seg && NoSlash(segs)
    ensures NoSlash([seg] + segs)
  {
  }

  /**
   * What a name's path is, for every name, empty segments or not: less one slash at its end, the name is the
   * joined path; if it still ends in a slash, it is the joined parent, a slash, and the last segment again.
   */
  lemma {:induction false} SegmentsMeaning(s: seq<byte>, p: nat, e: nat)
    requires p <= e <= |s|
    ensures var path := Segments(s, p, e);
      && NoSlash(path)
      && (p == e || s[e - 1] != 47 ==> Join(path) == s[p..e])
      && (p < e && s[e - 1] == 47 ==>
            |path| > 1 && path[|path| - 1] == path[|path| - 2] && Join(path[..|path| - 1]) + [47] == s[p..e])
    decreases e - p
  {
    hide SkipToken, Join, NoSlash, Segments;
    var j := SkipToken(s, p, e, [SLASH]);
    SegmentsCases(s, p, e);
    OneSegment(s[p..j]);
    if j + 1 < e {
      var rest := Segments(s, j + 1, e);
      SegmentsMeaning(s, j + 1, e);
      NoSlashCons(s[p..j], rest);
      CutAt(s, p, j, e);
      JoinBehind(s[p..j], s[j + 1..e], rest);
    }
  }

  lemma SegmentsCases(s: seq<byte>, p: nat, e: nat)
    requires p <= e <= |s|
    ensures var j, path := SkipToken(s, p, e, [SLASH]), Segments(s, p, e);
      && p <= j <= e && 47 !in s[p..j] && (j < e ==> s[j] == 47)
      && (j == e ==> path == [s[p..j]] && s[p..e] == s[p..j] && (p < e ==> s[e - 1] != 47))
      && (j + 1 == e ==> path == [s[p..j], s[p..j]] && s[p..e] == s[p..j] + [47])
      && (j + 1 < e ==> path == [s[p..j]] + Segments(s, j + 1, e))
  {
    hide SkipToken;
    var j := SkipToken(s, p, e, [SLASH]);
    if j == e && p < e {
      assert s[e - 1] !in [SLASH];
    }
  }

  lemma OneSegment(seg: seq<byte>)
    ensures Join([seg]) == seg && (47 !in seg ==> NoSlash([seg]) && NoSlash([seg, seg]))
    ensures [seg, seg][..1] == [seg]
  {
  }

  lemma CutAt(s: seq<byte>, p: nat, j: nat, e: nat)
    requires p <= j && j + 1 < e <= |s| && s[j] == 47
    ensures s[p..e] == s[p..j] + [47] + s[j + 1..e]
  {
  }

  lemma JoinBehind(seg: seq<byte>, tail: seq<byte>, rest: Path)
    requires rest != []
    ensures Join(rest) == tail ==> Join([seg] + rest) == seg + [47] + tail
    ensures |rest| > 1 && Join(rest[..|rest| - 1]) + [47] == tail ==>
      Join(([seg] + rest)[..|rest|]) + [47] == seg + [47] + tail
  {
    hide Join;
    JoinFront(seg, rest);
    if |rest| > 1 {
      InitOf(seg, rest);
      JoinFront(seg, rest[..|rest| - 1]);
      Regroup(seg + [47], Join(rest[..|rest| - 1]));
    }
  }

  lemma InitOf(seg: seq<byte>, rest: Path)
    requires rest != []
    ensures ([seg] + rest)[..|rest|] == [seg] + rest[..|rest| - 1]
  {
  }

  lemma JoinFront(seg: seq<byte>, rest: Path)
    requires rest != []
    ensures Join([seg] + rest) == seg + [47] + Join(rest)
  {
    hide Join;
    assert ([seg] + rest)[1..] == rest;
    JoinSplit([seg] + rest);
  }

  lemma Regroup(a: seq<byte>, b: seq<byte>)
    ensures a + b + [47] == a + (b + [47])
  {
  }

  // ----- the tree

  /** One round of mount, by the header's fields: '0' is 48, '5' is 53. */
  lemma RoundExact(fs: Fs, h: Header)
    ensures var parent := Parent(TreePath(h.name));
      var makes := (h.kind == 48 && h.content != []) || h.kind == 53;
      && (AddEntry(fs, h).Tree? <==> h.valid && makes && parent in fs && fs[parent] == Dir)
      && (AddEntry(fs, h).Corrupted? <==> h.valid && makes && parent in fs && fs[parent] != Dir)
  {
    hide TreePath, Prune;
  }

  /** The last header of that very path, unless a later one has replaced it or a directory above it. */
  ghost predicate Latest(hs: seq<Header>, k: nat, p: Path) {
    k < |hs| && TreePath(hs[k].name) == p && forall m :: k < m < |hs| ==> !(TreePath(hs[m].name) <= p)
  }

  lemma LatestMeans(hs: seq<Header>, k: nat, p: Path)
    ensures Latest(hs, k, p) <==>
      (k < |hs| && TreePath(hs[k].name) == p && forall m :: k < m < |hs| ==> !(TreePath(hs[m].name) <= p))
  {
    hide TreePath;
  }

  lemma LatestStep(hs: seq<Header>, k: nat, p: Path)
    requires hs != []
    ensures var n := |hs| - 1;
      && (k < n ==> (Latest(hs, k, p) <==> Latest(hs[..n], k, p) && !(TreePath(hs[n].name) <= p)))
      && (Latest(hs, n, p) <==> TreePath(hs[n].name) == p)
      && (k > n ==> !Latest(hs, k, p))
  {
    hide TreePath;
    assert forall m :: 0 <= m < |hs| - 1 ==> hs[..|hs| - 1][m] == hs[m];
  }

  /**
   * The tree of any archive that mounts, listing or not: a path is there exactly when some header is the last
   * word on it, and it is what that header says.
   */
  lemma {:induction false} TreeExact(hs: seq<Header>, p: Path)
    requires Build(hs).Tree? && p != []
    ensures p in Build(hs).fs <==> exists k: nat :: Latest(hs, k, p)
    ensures forall k: nat :: Latest(hs, k, p) ==>
      hs[k].valid && p in Build(hs).fs &&
      ((hs[k].kind == 48 && hs[k].content != [] && Build(hs).fs[p] == File(hs[k].content)) || (hs[k].kind == 53 && Build(hs).fs[p] == Dir))
  {
    hide TreePath, Latest, Prune;
    if hs != [] {
      var n := |hs| - 1;
      var fs0, h := Build(hs[..n]).fs, hs[n];
      var q := TreePath(h.name);
      TreeExact(hs[..n], p);
      Added(fs0, h, p);
      forall k: nat ensures Latest(hs, k, p) <==> (if k < n then Latest(hs[..n], k, p) && !(q <= p) else k == n && q == p) {
        LatestStep(hs, k, p);
      }
      if q != p && p in Build(hs).fs {
        var k: nat :| Latest(hs[..n], k, p);
        LatestIn(hs[..n], k, p);
        assert Latest(hs, k, p);
      }
      forall k: nat | Latest(hs[..n], k, p) ensures k < n && hs[..n][k] == hs[k] {
        LatestIn(hs[..n], k, p);
      }
    } else {
      forall k: nat ensures !Latest(hs, k, p) {
        LatestIn(hs, k, p);
      }
    }
  }

  lemma LatestIn(hs: seq<Header>, k: nat, p: Path)
    ensures Latest(hs, k, p) ==> k < |hs|
  {
  }

  lemma Added(fs: Fs, h: Header, p: Path)
    requires AddEntry(fs, h).Tree?
    ensures var q, fs' := TreePath(h.name), AddEntry(fs, h).fs;
      && h.valid && (h.kind == 48 || h.kind == 53) && (h.kind == 48 ==> h.content != [])
      && (p == q ==> p in fs' && fs'[p] == if h.kind == 53 then Dir else File(h.content))
      && (p != q ==> (p in fs' <==> p in fs && !(q <= p)) && (p in fs' ==> fs'[p] == fs[p]))
  {
    hide TreePath;
  }

  /** Every header of an archive that mounts is a valid one of a non-empty file or a directory. */
  lemma {:induction false} MountedOnly(hs: seq<Header>, k: nat)
    requires Build(hs).Tree? && k < |hs|
    ensures hs[k].valid && ((hs[k].kind == 48 && hs[k].content != []) || hs[k].kind == 53)
    decreases |hs|
  {
    hide TreePath, Prune, AddEntry;
    var n := |hs| - 1;
    RoundExact(Build(hs[..n]).fs, hs[n]);
    if k < n {
      MountedOnly(hs[..n], k);
    }
  }
}
