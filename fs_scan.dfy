/** The path scanner of fs.c, s_parse_path, on one component at a time, and
    the layout of an input as its components between '/'s. */
module FsScan {
  import opened Bytes
  import opened Fs

  /** The scanner's state after the bytes p of a component, from state 1. */
  function SegState(p: seq<Byte>): int {
    if p == [] then 1 else if Dot(p) then 2 else if DotDot(p) then 3 else 4
  }

  lemma SegStateStep(p: seq<Byte>, c: Byte)
    requires p != [] && c != '/' && !Forbidden(c)
    ensures FsNext(SegState(p), c) == SegState(p + [c])
  {
    var q := p + [c];
    assert q[|p|] == c;
    if Dot(p) {
      if c == '.' {
        assert DotDot(q);
      } else {
        assert !DotDot(q);
      }
    } else if DotDot(p) {
      assert |q| == 3;
    } else {
      assert q[0] == p[0];
    }
  }

  /** The first k bytes of a component, read from state 1. */
  lemma {:induction false} LexIn(s: seq<Byte>, i: nat, k: nat)
    requires 1 <= k <= MaxPath - 1 && i + k <= |s|
    requires forall q :: i <= q < i + k ==> s[q] != '/' && !Forbidden(s[q])
    ensures Lex(s, i) == Scan(s, i + k, SegState(s[i..i + k]), s[i..i + k], false)
    decreases k
  {
    if k == 1 {
      assert s[i..i + 1] == [s[i]];
      assert [] + [s[i]] == [s[i]];
      if s[i] == '.' {
        assert Dot([s[i]]);
        assert Scan(s, i, 1, [], false) == Scan(s, i + 1, 2, [s[i]], false);
      } else {
        assert !Dot([s[i]]) && !DotDot([s[i]]);
        assert Scan(s, i, 1, [], false) == Scan(s, i + 1, 4, [s[i]], false);
      }
    } else {
      LexIn(s, i, k - 1);
      var p := s[i..i + k - 1];
      assert s[i..i + k] == p + [s[i + k - 1]];
      SegStateStep(p, s[i + k - 1]);
    }
  }

  /** One call of s_parse_path on an acceptable component seg that starts at i
      and ends at a '/' or at the end of s. */
  lemma LexSeg(s: seq<Byte>, i: nat, seg: seq<Byte>)
    requires i + |seg| <= |s| && s[i..i + |seg|] == seg && NoSlash(seg) && SegOk(seg)
    requires i + |seg| == |s| || s[i + |seg|] == '/'
    ensures var j := i + |seg|;
      if seg == [] || Dot(seg) then
        (j == |s| ==> Lex(s, i) == (End, |s|)) && (j < |s| ==> Lex(s, i) == Lex(s, j + 1))
      else if DotDot(seg) then Lex(s, i) == (Up, j)
      else Lex(s, i) == (Dir(seg), j)
  {
    var j := i + |seg|;
    if seg != [] {
      forall q | i <= q < j ensures s[q] != '/' && !Forbidden(s[q]) {
        assert s[q] == seg[q - i];
      }
      LexIn(s, i, |seg|);
    }
  }

  /** A component with a byte the table refuses, or too long for the buffer. */
  lemma LexBadSeg(s: seq<Byte>, i: nat, seg: seq<Byte>)
    requires i + |seg| <= |s| && s[i..i + |seg|] == seg && NoSlash(seg) && !SegOk(seg)
    ensures Lex(s, i).0 == Err
  {
    var m := 0;
    while m < |seg| && m < MaxPath - 1 && !Forbidden(seg[m])
      invariant m <= |seg| && m <= MaxPath - 1
      invariant forall q :: 0 <= q < m ==> !Forbidden(seg[q])
    {
      m := m + 1;
    }
    assert m < |seg|;
    forall q | i <= q < i + m ensures s[q] != '/' && !Forbidden(s[q]) {
      assert s[q] == seg[q - i];
    }
    assert s[i + m] == seg[m];
    if m > 0 {
      LexIn(s, i, m);
    }
  }

  /** The first '/' of t is at k (or t has none, when k == |t|). */
  lemma {:induction false} FirstSlashIs(t: seq<Byte>, k: nat)
    requires k <= |t| && NoSlash(t[..k]) && (k == |t| || t[k] == '/')
    ensures FirstSlash(t) == if k == |t| then -1 else k
    decreases k
  {
    if k > 0 {
      assert t[0] == t[..k][0];
      assert t[1..][..k - 1] == t[1..k];
      assert forall q :: 0 <= q < k - 1 ==> t[1..k][q] == t[..k][q + 1];
      FirstSlashIs(t[1..], k - 1);
    }
  }

  /** The first component of s[i..]. */
  lemma NextSeg(s: seq<Byte>, i: nat) returns (seg: seq<Byte>)
    requires i <= |s|
    ensures i + |seg| <= |s| && s[i..i + |seg|] == seg && NoSlash(seg)
    ensures i + |seg| < |s| ==> s[i + |seg|] == '/'
  {
    var t := s[i..];
    var k := FirstSlash(t);
    if k < 0 {
      seg := t;
    } else {
      seg := t[..k];
    }
  }

  /** The components of s[i..] when seg is its first one. */
  lemma SplitOf(s: seq<Byte>, i: nat, seg: seq<Byte>)
    requires i + |seg| <= |s| && s[i..i + |seg|] == seg && NoSlash(seg)
    requires i + |seg| < |s| ==> s[i + |seg|] == '/'
    ensures i + |seg| == |s| ==> Split(s[i..]) == [seg]
    ensures i + |seg| < |s| ==> Split(s[i..]) == [seg] + Split(s[i + |seg| + 1..])
  {
    var t := s[i..];
    assert t[..|seg|] == seg;
    FirstSlashIs(t, |seg|);
    if i + |seg| < |s| {
      assert t[|seg| + 1..] == s[i + |seg| + 1..];
    } else {
      assert t == seg;
    }
  }

  lemma LexSkip(s: seq<Byte>, i: nat, seg: seq<Byte>)
    requires i + |seg| <= |s| && s[i..i + |seg|] == seg && NoSlash(seg) && SegOk(seg)
    requires i + |seg| == |s| || s[i + |seg|] == '/'
    requires seg == [] || Dot(seg)
    ensures i + |seg| == |s| ==> Lex(s, i) == (End, |s|)
    ensures i + |seg| < |s| ==> Lex(s, i) == Lex(s, i + |seg| + 1)
  {
    LexSeg(s, i, seg);
  }

  lemma LexUp(s: seq<Byte>, i: nat, seg: seq<Byte>)
    requires i + |seg| <= |s| && s[i..i + |seg|] == seg && NoSlash(seg) && SegOk(seg)
    requires i + |seg| == |s| || s[i + |seg|] == '/'
    requires DotDot(seg)
    ensures Lex(s, i) == (Up, i + |seg|)
  {
    LexSeg(s, i, seg);
  }

  lemma LexDir(s: seq<Byte>, i: nat, seg: seq<Byte>)
    requires i + |seg| <= |s| && s[i..i + |seg|] == seg && NoSlash(seg) && SegOk(seg)
    requires i + |seg| == |s| || s[i + |seg|] == '/'
    requires seg != [] && !Dot(seg) && !DotDot(seg)
    ensures Lex(s, i) == (Dir(seg), i + |seg|)
  {
    LexSeg(s, i, seg);
  }

  lemma LexSlash(s: seq<Byte>, j: nat)
    requires j < |s| && s[j] == '/'
    ensures Lex(s, j) == Lex(s, j + 1)
  {
  }

  lemma CleanSlice(s: seq<Byte>, i: nat, j: nat)
    requires i <= j <= |s| && Clean(s)
    ensures Clean(s[i..j])
  {
    forall q | 0 <= q < j - i ensures !Forbidden(s[i..j][q]) {
      assert s[i..j][q] == s[i + q];
    }
  }

  /** seg is spelled out in s from index i, and has no '/'. */
  ghost predicate Spells(s: seq<Byte>, i: nat, seg: seq<Byte>) {
    i + |seg| <= |s| && forall q :: 0 <= q < |seg| ==> s[i + q] == seg[q] && seg[q] != '/'
  }

  /** segs are the components of s from i on: each spelled out, one '/' between
      two of them, the last one ending s. */
  ghost predicate Segmented(s: seq<Byte>, i: nat, segs: seq<seq<Byte>>)
    decreases |segs|
  {
    |segs| >= 1 && Spells(s, i, segs[0]) &&
    if |segs| == 1 then i + |segs[0]| == |s|
    else i + |segs[0]| < |s| && s[i + |segs[0]|] == '/' && Segmented(s, i + |segs[0]| + 1, segs[1..])
  }

  lemma SpellsSlice(s: seq<Byte>, i: nat, seg: seq<Byte>)
    requires Spells(s, i, seg)
    ensures s[i..i + |seg|] == seg && NoSlash(seg)
  {
    forall q | 0 <= q < |seg| ensures s[i..i + |seg|][q] == seg[q] {
      assert s[i..i + |seg|][q] == s[i + q];
    }
  }

  lemma SliceSpells(s: seq<Byte>, i: nat, seg: seq<Byte>)
    requires i + |seg| <= |s| && s[i..i + |seg|] == seg && NoSlash(seg)
    ensures Spells(s, i, seg)
  {
    forall q | 0 <= q < |seg| ensures s[i + q] == seg[q] {
      assert s[i..i + |seg|][q] == s[i + q];
    }
  }

  lemma SegmentedOne(s: seq<Byte>, i: nat, seg: seq<Byte>)
    requires Spells(s, i, seg) && i + |seg| == |s|
    ensures Segmented(s, i, [seg])
  {
  }

  lemma SegmentedCons(s: seq<Byte>, i: nat, seg: seq<Byte>, rest: seq<seq<Byte>>)
    requires Spells(s, i, seg) && i + |seg| < |s| && s[i + |seg|] == '/'
    requires Segmented(s, i + |seg| + 1, rest)
    ensures Segmented(s, i, [seg] + rest)
  {
    assert ([seg] + rest)[1..] == rest;
  }

  /** Split lays out the components of s[i..]. */
  lemma {:induction false} SplitSegmented(s: seq<Byte>, i: nat)
    requires i <= |s|
    ensures Segmented(s, i, Split(s[i..]))
    decreases |s| - i
  {
    var seg := NextSeg(s, i);
    SplitOf(s, i, seg);
    SliceSpells(s, i, seg);
    if i + |seg| < |s| {
      SplitSegmented(s, i + |seg| + 1);
      SegmentedCons(s, i, seg, Split(s[i + |seg| + 1..]));
    } else {
      SegmentedOne(s, i, seg);
    }
  }
}
