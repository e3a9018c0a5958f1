/** strtok_r (libk/src/all/string/strtok_r.c) and the '/'-separated paths it is used on. */
module Strtok {
  import opened Words
  import opened Options

  const SLASH: byte := 47

  /** First index from p on whose byte is (not) a delimiter, up to e. */
  function SkipDelims(s: seq<byte>, p: nat, e: nat, delim: seq<byte>): (i: nat)
    requires p <= e <= |s|
    ensures p <= i <= e && (forall k :: p <= k < i ==> s[k] in delim) && (i < e ==> s[i] !in delim)
    decreases e - p
  {
    if p < e && s[p] in delim then SkipDelims(s, p + 1, e, delim) else p
  }

  function SkipToken(s: seq<byte>, p: nat, e: nat, delim: seq<byte>): (i: nat)
    requires p <= e <= |s|
    ensures p <= i <= e && (forall k :: p <= k < i ==> s[k] !in delim) && (i < e ==> s[i] in delim)
    decreases e - p
  {
    if p < e && s[p] !in delim then SkipToken(s, p + 1, e, delim) else p
  }

  /** A C string in buf from p: e is the index of its terminator. */
  predicate StringAt(buf: seq<byte>, p: nat, e: nat) {
    p <= e < |buf| && buf[e] == 0 && forall k :: p <= k < e ==> buf[k] != 0
  }

  /**
   * One call of strtok_r.  `str` is the string for the first call and None for the later ones, which go on
   * from `saveptr`; e is where the terminator is.
   */
  method StrtokR(buf: array<byte>, str: Option<nat>, delim: seq<byte>, saveptr: nat, ghost e: nat)
    returns (token: Option<nat>, save: nat)
    requires StringAt(buf[..], if str.Some? then str.value else saveptr, e)
    modifies buf
    ensures var p := if str.Some? then str.value else saveptr;
      var i := SkipDelims(old(buf[..]), p, e, delim);
      var j := SkipToken(old(buf[..]), i, e, delim);
      && token == (if i == e then None else Some(i))
      && save == (if j == e then e else j + 1)
      && buf[..] == (if j == e then old(buf[..]) else old(buf[..])[j := 0])
      && StringAt(buf[..], save, e) && (token.Some? ==> StringAt(buf[..], token.value, j))
  {
    save := saveptr;
    if str.Some? {
      save := str.value;
    }
    ghost var s, p := buf[..], save;
    while buf[save] != 0 && buf[save] in delim
      invariant p <= save <= e && SkipDelims(s, save, e, delim) == SkipDelims(s, p, e, delim)
      decreases e - save
    {
      save := save + 1;
    }
    var start := save;
    while buf[save] != 0 && buf[save] !in delim
      invariant start <= save <= e && SkipToken(s, save, e, delim) == SkipToken(s, start, e, delim)
      decreases e - save
    {
      save := save + 1;
    }
    if buf[save] == 0 {
      token := if start == save then None else Some(start);
    } else {
      buf[save] := 0;
      save := save + 1;
      token := Some(start);
    }
  }

  // ----- what repeated calls return

  /** The token bounds repeated calls find in s[p..e]. */
  function Tokens(s: seq<byte>, p: nat, e: nat, delim: seq<byte>): seq<(nat, nat)>
    requires p <= e <= |s|
    decreases e - p
  {
    var i := SkipDelims(s, p, e, delim);
    if i == e then []
    else
      var j := SkipToken(s, i, e, delim);
      [(i, j)] + Tokens(s, if j == e then e else j + 1, e, delim)
  }

  /** A maximal run of non-delimiters within [p, e). */
  ghost predicate MaximalRun(s: seq<byte>, p: nat, e: nat, delim: seq<byte>, i: nat, j: nat) {
    && p <= i < j <= e <= |s| && (forall k :: i <= k < j ==> s[k] !in delim)
    && (i > p ==> s[i - 1] in delim) && (j < e ==> s[j] in delim)
  }

  /** The tokens are exactly the maximal delimiter-free runs. */
  lemma {:induction false} TokensAreMaximalRuns(s: seq<byte>, p: nat, e: nat, delim: seq<byte>, i: nat, j: nat)
    requires p <= e <= |s|
    ensures (i, j) in Tokens(s, p, e, delim) <==> MaximalRun(s, p, e, delim, i, j)
    decreases e - p
  {
    hide SkipDelims, SkipToken;
    var a := SkipDelims(s, p, e, delim);
    if a < e {
      var b := SkipToken(s, a, e, delim);
      FirstRun(s, p, e, delim, a, b, i, j);
      var q := if b == e then e else b + 1;
      TokensAreMaximalRuns(s, q, e, delim, i, j);
      assert Tokens(s, p, e, delim) == [(a, b)] + Tokens(s, q, e, delim);
    } else {
      NoRun(s, p, e, delim, i, j);
    }
  }

  lemma NoRun(s: seq<byte>, p: nat, e: nat, delim: seq<byte>, i: nat, j: nat)
    requires p <= e <= |s| && forall k :: p <= k < e ==> s[k] in delim
    ensures !MaximalRun(s, p, e, delim, i, j)
  {
    if p <= i < j <= e {
      assert s[i] in delim;
    }
  }

  /** A run is the first one or a run of what follows its delimiter. */
  lemma FirstRun(s: seq<byte>, p: nat, e: nat, delim: seq<byte>, a: nat, b: nat, i: nat, j: nat)
    requires p <= a < b <= e <= |s|
    requires (forall k :: p <= k < a ==> s[k] in delim) && (forall k :: a <= k < b ==> s[k] !in delim)
    requires b < e ==> s[b] in delim
    ensures MaximalRun(s, p, e, delim, i, j) <==>
      ((i, j) == (a, b) || MaximalRun(s, if b == e then e else b + 1, e, delim, i, j))
  {
    if MaximalRun(s, p, e, delim, i, j) {
      assert s[i] !in delim && a <= i;
      assert i > p ==> s[i - 1] in delim;
      assert j < e ==> s[j] in delim;
      assert b < e ==> s[b] in delim;
    }
  }

  ghost predicate InOrder(ts: seq<(nat, nat)>, p: nat, e: nat) {
    && (forall k :: 0 <= k < |ts| ==> p <= ts[k].0 < ts[k].1 <= e)
    && (forall k, l :: 0 <= k < l < |ts| ==> ts[k].1 < ts[l].0)
  }

  /** And they come in order. */
  lemma {:induction false} TokensIncrease(s: seq<byte>, p: nat, e: nat, delim: seq<byte>)
    requires p <= e <= |s|
    ensures InOrder(Tokens(s, p, e, delim), p, e)
    decreases e - p
  {
    hide SkipDelims, SkipToken;
    var a := SkipDelims(s, p, e, delim);
    if a < e {
      var b := SkipToken(s, a, e, delim);
      var q := if b == e then e else b + 1;
      TokensIncrease(s, q, e, delim);
      NoTokens(s, e, delim);
      OrderCons(a, b, Tokens(s, q, e, delim), p, q, e);
    }
  }

  lemma OrderCons(a: nat, b: nat, rest: seq<(nat, nat)>, p: nat, q: nat, e: nat)
    requires p <= a < b <= e && InOrder(rest, q, e) && (rest != [] ==> b < q)
    ensures InOrder([(a, b)] + rest, p, e)
  {
    var ts := [(a, b)] + rest;
    assert forall k :: 0 < k < |ts| ==> ts[k] == rest[k - 1];
  }

  lemma NoTokens(s: seq<byte>, e: nat, delim: seq<byte>)
    requires e <= |s|
    ensures Tokens(s, e, e, delim) == []
  {
  }

  /** Only the bytes from p to e matter. */
  lemma {:induction false} SkipFrame(s: seq<byte>, t: seq<byte>, p: nat, e: nat, delim: seq<byte>)
    requires p <= e <= |s| && e <= |t| && forall k :: p <= k < e ==> s[k] == t[k]
    ensures SkipDelims(s, p, e, delim) == SkipDelims(t, p, e, delim)
    ensures SkipToken(s, p, e, delim) == SkipToken(t, p, e, delim)
    decreases e - p
  {
    if p < e {
      SkipFrame(s, t, p + 1, e, delim);
    }
  }

  /** The strings found so far stand in buf; none reaches the unread part, except at its end. */
  ghost predicate Collected(buf: seq<byte>, tokens: seq<nat>, found: seq<(nat, nat)>, save: nat, e: nat) {
    && |tokens| == |found|
    && forall k :: 0 <= k < |found| ==>
        && tokens[k] == found[k].0 && StringAt(buf, found[k].0, found[k].1)
        && (found[k].1 < save || found[k].1 == save == e)
  }

  lemma CollectOne(buf: seq<byte>, tokens: seq<nat>, found: seq<(nat, nat)>, p: nat, e: nat, i: nat, j: nat)
    requires Collected(buf, tokens, found, p, e) && p <= i < j <= e < |buf|
    requires var buf' := if j == e then buf else buf[j := 0]; StringAt(buf', i, j)
    ensures var buf', save := if j == e then buf else buf[j := 0], if j == e then e else j + 1;
      Collected(buf', tokens + [i], found + [(i, j)], save, e)
  {
  }

  /**
   * Calling strtok_r until it returns NULL yields the tokens of the original string, in order, and
   * overwrites delimiters only.
   */
  method TokenizeAll(buf: array<byte>, delim: seq<byte>, ghost e: nat) returns (tokens: seq<nat>)
    requires StringAt(buf[..], 0, e)
    modifies buf
    ensures Collected(buf[..], tokens, Tokens(old(buf[..]), 0, e, delim), e, e)
    ensures forall k :: 0 <= k < buf.Length && buf[k] != old(buf[k]) ==> old(buf[k]) in delim && buf[k] == 0
  {
    hide *;
    ghost var s, found: seq<(nat, nat)> := buf[..], [];
    var save, done, str := 0, false, Some(0);
    tokens := [];
    TokenizingStart(s, e, delim);
    while !done
      invariant Tokenizing(s, buf[..], tokens, found, save, done, e, delim) && save <= e
      invariant str.Some? ==> str == Some(0) && save == 0
      decreases e - save, !done
    {
      ghost var b, p := buf[..], save;
      TokenizingStep(s, b, tokens, found, p, e, delim);
      var token, next := StrtokR(buf, str, delim, save, e);
      str := None;
      if token.None? {
        done := true;
      } else {
        found := found + [(token.value, SkipToken(b, token.value, e, delim))];
        tokens := tokens + [token.value];
      }
      save := next;
    }
    TokenizingEnd(s, buf[..], tokens, found, save, e, delim);
  }

  /** What the calls keep: s is the original string, b the buffer now. */
  ghost predicate Tokenizing(s: seq<byte>, b: seq<byte>, tokens: seq<nat>, found: seq<(nat, nat)>, save: nat, done: bool,
                             e: nat, delim: seq<byte>) {
    && save <= e < |b| == |s| && StringAt(s, 0, e) && (done ==> save == e)
    && (forall k :: save <= k <= e ==> b[k] == s[k])
    && (forall k :: 0 <= k < |s| && b[k] != s[k] ==> s[k] in delim && b[k] == 0)
    && Collected(b, tokens, found, save, e)
    && found + (if done then [] else Tokens(s, save, e, delim)) == Tokens(s, 0, e, delim)
  }

  lemma TokenizingStart(s: seq<byte>, e: nat, delim: seq<byte>)
    requires StringAt(s, 0, e)
    ensures Tokenizing(s, s, [], [], 0, false, e, delim)
  {
  }

  lemma TokenizingEnd(s: seq<byte>, b: seq<byte>, tokens: seq<nat>, found: seq<(nat, nat)>, save: nat, e: nat, delim: seq<byte>)
    requires Tokenizing(s, b, tokens, found, save, true, e, delim)
    ensures e <= |s| && Collected(b, tokens, Tokens(s, 0, e, delim), e, e)
    ensures |b| == |s| && forall k :: 0 <= k < |s| && b[k] != s[k] ==> s[k] in delim && b[k] == 0
  {
    assert found + [] == found;
  }

  lemma TokenizingStep(s: seq<byte>, b: seq<byte>, tokens: seq<nat>, found: seq<(nat, nat)>, p: nat, e: nat, delim: seq<byte>)
    requires Tokenizing(s, b, tokens, found, p, false, e, delim)
    ensures p <= e < |b| && StringAt(b, p, e)
    ensures var i := SkipDelims(b, p, e, delim);
      var j := SkipToken(b, i, e, delim);
      var b', save := if j == e then b else b[j := 0], if j == e then e else j + 1;
      && (i == e ==> j == e && Tokenizing(s, b, tokens, found, e, true, e, delim))
      && (i < e ==> save > p && Tokenizing(s, b', tokens + [i], found + [(i, j)], save, false, e, delim))
  {
    hide SkipDelims, SkipToken, Collected, Tokens;
    SkipFrame2(s, b, p, e, delim);
    TokensUnfold(s, p, e, delim);
    var i := SkipDelims(b, p, e, delim);
    var j := SkipToken(b, i, e, delim);
    if i < e {
      CollectOne(b, tokens, found, p, e, i, j);
      var rest := Tokens(s, if j == e then e else j + 1, e, delim);
      assert found + ([(i, j)] + rest) == found + [(i, j)] + rest;
    } else {
      CollectNone(b, tokens, found, p, e);
    }
  }

  lemma CollectNone(buf: seq<byte>, tokens: seq<nat>, found: seq<(nat, nat)>, p: nat, e: nat)
    requires Collected(buf, tokens, found, p, e) && p <= e
    ensures Collected(buf, tokens, found, e, e)
  {
  }

  lemma SkipFrame2(s: seq<byte>, t: seq<byte>, p: nat, e: nat, delim: seq<byte>)
    requires p <= e <= |s| && e <= |t| && forall k :: p <= k < e ==> s[k] == t[k]
    ensures SkipDelims(s, p, e, delim) == SkipDelims(t, p, e, delim)
    ensures var i := SkipDelims(s, p, e, delim); SkipToken(s, i, e, delim) == SkipToken(t, i, e, delim)
  {
    SkipFrame(s, t, p, e, delim);
    SkipFrame(s, t, SkipDelims(s, p, e, delim), e, delim);
  }

  lemma TokensUnfold(s: seq<byte>, p: nat, e: nat, delim: seq<byte>)
    requires p <= e <= |s|
    ensures var i := SkipDelims(s, p, e, delim);
      var j := SkipToken(s, i, e, delim);
      && (i == e ==> Tokens(s, p, e, delim) == [] && j == e)
      && (i < e ==> i < j && Tokens(s, p, e, delim) == [(i, j)] + Tokens(s, if j == e then e else j + 1, e, delim))
  {
  }

  // ----- paths

  /** A path segment: not empty, no separator, no terminator. */
  predicate SegmentOk(seg: seq<byte>) {
    seg != [] && SLASH !in seg && 0 !in seg
  }

  predicate PathOk(segs: seq<seq<byte>>) {
    forall k :: 0 <= k < |segs| ==> SegmentOk(segs[k])
  }

  function Join(segs: seq<seq<byte>>): seq<byte> {
    if segs == [] then []
    else if |segs| == 1 then segs[0]
    else segs[0] + [SLASH] + Join(segs[1..])
  }

  /** The texts of the tokens of s[p..e]. */
  function TokenTexts(s: seq<byte>, p: nat, e: nat): seq<seq<byte>>
    requires p <= e <= |s|
    decreases e - p
  {
    var i := SkipDelims(s, p, e, [SLASH]);
    if i == e then []
    else
      var j := SkipToken(s, i, e, [SLASH]);
      [s[i..j]] + TokenTexts(s, if j == e then e else j + 1, e)
  }

  /** These are the texts of the tokens found above. */
  lemma {:induction false} TextsOfTokens(s: seq<byte>, p: nat, e: nat)
    requires p <= e <= |s|
    ensures InOrder(Tokens(s, p, e, [SLASH]), p, e)
    ensures TokenTexts(s, p, e) == Texts(s, Tokens(s, p, e, [SLASH]))
    decreases e - p
  {
    hide SkipDelims, SkipToken, InOrder;
    TokensIncrease(s, p, e, [SLASH]);
    var i := SkipDelims(s, p, e, [SLASH]);
    if i < e {
      var j := SkipToken(s, i, e, [SLASH]);
      TextsOfTokens(s, if j == e then e else j + 1, e);
    }
  }

  function Texts(s: seq<byte>, ts: seq<(nat, nat)>): seq<seq<byte>> {
    if ts == [] then []
    else
      var (i, j) := ts[0];
      [if i <= j <= |s| then s[i..j] else []] + Texts(s, ts[1..])
  }

  lemma TextsUnfold(s: seq<byte>, p: nat, e: nat)
    requires p <= e <= |s|
    ensures var i := SkipDelims(s, p, e, [SLASH]);
      var j := SkipToken(s, i, e, [SLASH]);
      TokenTexts(s, p, e) == if i == e then [] else [s[i..j]] + TokenTexts(s, if j == e then e else j + 1, e)
  {
    hide SkipDelims, SkipToken;
  }

  lemma NoTexts(s: seq<byte>, p: nat)
    requires p <= |s|
    ensures TokenTexts(s, p, p) == []
  {
  }

  /** Splitting a joined path, wherever it stands in s, gives its segments back. */
  lemma {:induction false} TokensOfJoin(s: seq<byte>, p: nat, e: nat, segs: seq<seq<byte>>)
    requires p <= e <= |s| && s[p..e] == Join(segs) && PathOk(segs)
    ensures TokenTexts(s, p, e) == segs
    decreases |segs|
  {
    hide Join, SkipDelims, SkipToken, TokenTexts, PathOk;
    TextsUnfold(s, p, e);
    if segs == [] {
      EmptyJoin(segs);
      NoTexts(s, p);
    } else {
      JoinHead(segs);
      var j := p + |segs[0]|;
      FirstSegment(s, p, e, segs);
      TokensOfJoin(s, if j == e then e else j + 1, e, segs[1..]);
    }
  }

  lemma FirstSegment(s: seq<byte>, p: nat, e: nat, segs: seq<seq<byte>>)
    requires p <= e <= |s| && s[p..e] == Join(segs) && PathOk(segs) && segs != []
    ensures var j := p + |segs[0]|;
      && p < j <= e && s[p..j] == segs[0]
      && SkipDelims(s, p, e, [SLASH]) == p && SkipToken(s, p, e, [SLASH]) == j
      && (j == e <==> |segs| == 1)
      && s[if j == e then e else j + 1..e] == Join(segs[1..])
  {
    hide Join;
    JoinHead(segs);
    var seg, t := segs[0], s[p..e];
    var j := p + |seg|;
    assert t[..|seg|] == s[p..j];
    assert forall k :: p <= k < j ==> s[k] == seg[k - p];
    assert s[p] == seg[0];
    if |segs| > 1 {
      assert t[|seg|] == s[j] == SLASH;
      assert t[|seg| + 1..] == s[j + 1..e];
    } else {
      EmptyJoin(segs[1..]);
    }
    TokenEnds(s, p, j, e);
  }

  lemma EmptyJoin(segs: seq<seq<byte>>)
    requires segs == []
    ensures Join(segs) == []
  {
  }

  lemma JoinHead(segs: seq<seq<byte>>)
    requires segs != [] && PathOk(segs)
    ensures var j := Join(segs);
      && |segs[0]| <= |j| && j[..|segs[0]|] == segs[0] && |segs[0]| > 0 && PathOk(segs[1..])
      && (|segs| == 1 <==> |j| == |segs[0]|)
      && (|segs| > 1 ==> j[|segs[0]|] == SLASH && j[|segs[0]| + 1..] == Join(segs[1..]))
  {
    if |segs| > 1 {
      assert Join(segs) == segs[0] + [SLASH] + Join(segs[1..]);
    }
  }

  lemma {:induction false} TokenEnds(s: seq<byte>, p: nat, j: nat, e: nat)
    requires p <= j <= e <= |s| && (forall k :: p <= k < j ==> s[k] != SLASH) && (j < e ==> s[j] == SLASH)
    ensures SkipToken(s, p, e, [SLASH]) == j
    decreases j - p
  {
    if p < j {
      TokenEnds(s, p + 1, j, e);
    }
  }
}
