/** gemini_fs_resolve's loop, one DIR or UP token at a time, and its equivalence
    with the resolver over the components of the input. */
module FsResolve {
  import opened Bytes
  import opened Fs
  import opened FsScan

  lemma ResolveSame(s: seq<Byte>, i: nat, i2: nat, path: seq<Byte>, deep: nat)
    requires i <= |s| && i2 <= |s| && |path| <= MaxPath - 1 && Lex(s, i) == Lex(s, i2)
    ensures ResolveFrom(s, i, path, deep) == ResolveFrom(s, i2, path, deep)
  {
  }

  lemma ResolveUp(s: seq<Byte>, i: nat, j: nat, path: seq<Byte>, deep: nat, path2: seq<Byte>, deep2: nat)
    requires i <= |s| && Lex(s, i) == (Up, j) && |path| <= MaxPath - 1
    requires if deep > 0 then path2 == Pop(path) && deep2 == deep - 1 else path2 == path && deep2 == 0
    ensures j == |s| ==> ResolveFrom(s, i, path, deep) == Some(path2)
    ensures j < |s| && s[j] == '/' ==> ResolveFrom(s, i, path, deep) == ResolveFrom(s, j + 1, path2, deep2)
  {
    UpOnce(s, i, j, path, deep, path2, deep2);
    ResolveAt(s, j, path2, deep2);
  }

  lemma UpOnce(s: seq<Byte>, i: nat, j: nat, path: seq<Byte>, deep: nat, path2: seq<Byte>, deep2: nat)
    requires i <= |s| && Lex(s, i) == (Up, j) && |path| <= MaxPath - 1
    requires if deep > 0 then path2 == Pop(path) && deep2 == deep - 1 else path2 == path && deep2 == 0
    ensures ResolveFrom(s, i, path, deep) == ResolveFrom(s, j, path2, deep2)
  {
    StepUpIs(path, deep, path2, deep2);
    StepOnce(s, i, path, deep);
  }

  lemma StepUpIs(path: seq<Byte>, deep: nat, path2: seq<Byte>, deep2: nat)
    requires |path| <= MaxPath - 1
    requires if deep > 0 then path2 == Pop(path) && deep2 == deep - 1 else path2 == path && deep2 == 0
    ensures Step(path, deep, Up) == (path2, deep2)
  {
  }

  /** At the end of the input the path is the result; at a '/' the scanner
      moves on to the next byte. */
  lemma ResolveAt(s: seq<Byte>, j: nat, path: seq<Byte>, deep: nat)
    requires j <= |s| && |path| <= MaxPath - 1
    ensures j == |s| ==> ResolveFrom(s, j, path, deep) == Some(path)
    ensures j < |s| && s[j] == '/' ==> ResolveFrom(s, j, path, deep) == ResolveFrom(s, j + 1, path, deep)
  {
    if j < |s| && s[j] == '/' {
      LexSlash(s, j);
      ResolveSame(s, j, j + 1, path, deep);
    }
  }

  lemma ResolveDir(s: seq<Byte>, i: nat, j: nat, path: seq<Byte>, deep: nat, name: seq<Byte>, path2: seq<Byte>)
    requires i <= |s| && Lex(s, i) == (Dir(name), j)
    requires |path| < MaxPath - 1 || (deep == 0 && |path| <= MaxPath - 1)
    requires Append(path, deep, name) == path2
    ensures j == |s| ==> ResolveFrom(s, i, path, deep) == Some(path2)
    ensures j < |s| && s[j] == '/' ==> ResolveFrom(s, i, path, deep) == ResolveFrom(s, j + 1, path2, deep + 1)
  {
    DirOnce(s, i, j, path, deep, name, path2);
    ResolveAt(s, j, path2, deep + 1);
  }

  lemma DirOnce(s: seq<Byte>, i: nat, j: nat, path: seq<Byte>, deep: nat, name: seq<Byte>, path2: seq<Byte>)
    requires i <= |s| && Lex(s, i) == (Dir(name), j)
    requires |path| < MaxPath - 1 || (deep == 0 && |path| <= MaxPath - 1)
    requires Append(path, deep, name) == path2
    ensures ResolveFrom(s, i, path, deep) == ResolveFrom(s, j, path2, deep + 1)
  {
    StepDirIs(path, deep, name, path2);
    StepOnce(s, i, path, deep);
  }

  lemma StepDirIs(path: seq<Byte>, deep: nat, name: seq<Byte>, path2: seq<Byte>)
    requires |path| < MaxPath - 1 || (deep == 0 && |path| <= MaxPath - 1)
    requires Append(path, deep, name) == path2
    ensures Step(path, deep, Dir(name)) == (path2, deep + 1)
  {
  }

  /** One DIR or UP token of the resolver's loop. */
  lemma StepOnce(s: seq<Byte>, i: nat, path: seq<Byte>, deep: nat)
    requires i <= |s| && |path| <= MaxPath - 1 && (Lex(s, i).0.Dir? || Lex(s, i).0.Up?)
    ensures var r := Lex(s, i); var next := Step(path, deep, r.0);
      ResolveFrom(s, i, path, deep) == ResolveFrom(s, r.1, next.0, next.1)
  {
  }

  lemma DropOnce(s: seq<Byte>, i: nat, j: nat, path: seq<Byte>, deep: nat, name: seq<Byte>)
    requires i <= |s| && Lex(s, i) == (Dir(name), j) && deep > 0 && |path| == MaxPath - 1
    ensures ResolveFrom(s, i, path, deep) == ResolveFrom(s, j, path, deep)
  {
    StepDropIs(path, deep, name);
    StepOnce(s, i, path, deep);
  }

  lemma StepDropIs(path: seq<Byte>, deep: nat, name: seq<Byte>)
    requires deep > 0 && |path| == MaxPath - 1
    ensures Step(path, deep, Dir(name)) == (path, deep)
  {
  }

  /** The resolver on one acceptable component, whatever the path before it. */
  lemma StepGen(s: seq<Byte>, i: nat, path: seq<Byte>, deep: nat, seg: seq<Byte>)
    requires Spells(s, i, seg) && SegOk(seg) && |path| <= MaxPath - 1
    requires i + |seg| == |s| || s[i + |seg|] == '/'
    ensures i + |seg| == |s| ==> ResolveFrom(s, i, path, deep) == Some(Feed(path, deep, seg).0)
    ensures i + |seg| < |s| ==>
      ResolveFrom(s, i, path, deep) == ResolveFrom(s, i + |seg| + 1, Feed(path, deep, seg).0, Feed(path, deep, seg).1)
  {
    SpellsSlice(s, i, seg);
    if seg == [] || Dot(seg) {
      GenSkip(s, i, path, deep, seg);
    } else if DotDot(seg) {
      GenUp(s, i, path, deep, seg);
    } else {
      GenDir(s, i, path, deep, seg);
    }
  }

  lemma GenSkip(s: seq<Byte>, i: nat, path: seq<Byte>, deep: nat, seg: seq<Byte>)
    requires i + |seg| <= |s| && s[i..i + |seg|] == seg && NoSlash(seg) && SegOk(seg) && |path| <= MaxPath - 1
    requires i + |seg| == |s| || s[i + |seg|] == '/'
    requires seg == [] || Dot(seg)
    ensures i + |seg| == |s| ==> ResolveFrom(s, i, path, deep) == Some(path)
    ensures i + |seg| < |s| ==> ResolveFrom(s, i, path, deep) == ResolveFrom(s, i + |seg| + 1, path, deep)
  {
    LexSkip(s, i, seg);
    if i + |seg| < |s| {
      ResolveSame(s, i, i + |seg| + 1, path, deep);
    }
  }

  lemma GenUp(s: seq<Byte>, i: nat, path: seq<Byte>, deep: nat, seg: seq<Byte>)
    requires i + |seg| <= |s| && s[i..i + |seg|] == seg && NoSlash(seg) && SegOk(seg) && |path| <= MaxPath - 1
    requires i + |seg| == |s| || s[i + |seg|] == '/'
    requires DotDot(seg)
    ensures i + |seg| == |s| ==> ResolveFrom(s, i, path, deep) == Some(Step(path, deep, Up).0)
    ensures i + |seg| < |s| ==>
      ResolveFrom(s, i, path, deep) == ResolveFrom(s, i + |seg| + 1, Step(path, deep, Up).0, Step(path, deep, Up).1)
  {
    LexUp(s, i, seg);
    var next := Step(path, deep, Up);
    ResolveUp(s, i, i + |seg|, path, deep, next.0, next.1);
  }

  lemma GenDir(s: seq<Byte>, i: nat, path: seq<Byte>, deep: nat, seg: seq<Byte>)
    requires i + |seg| <= |s| && s[i..i + |seg|] == seg && NoSlash(seg) && SegOk(seg) && |path| <= MaxPath - 1
    requires i + |seg| == |s| || s[i + |seg|] == '/'
    requires seg != [] && !Dot(seg) && !DotDot(seg)
    ensures i + |seg| == |s| ==> ResolveFrom(s, i, path, deep) == Some(Step(path, deep, Dir(seg)).0)
    ensures i + |seg| < |s| ==>
      ResolveFrom(s, i, path, deep) == ResolveFrom(s, i + |seg| + 1, Step(path, deep, Dir(seg)).0, Step(path, deep, Dir(seg)).1)
  {
    LexDir(s, i, seg);
    var j := i + |seg|;
    if deep > 0 && |path| == MaxPath - 1 {
      StepDropIs(path, deep, seg);
      GenDrop(s, i, j, path, deep, seg);
    } else {
      var path2 := Append(path, deep, seg);
      StepDirIs(path, deep, seg, path2);
      ResolveDir(s, i, j, path, deep, seg, path2);
    }
  }

  lemma GenDrop(s: seq<Byte>, i: nat, j: nat, path: seq<Byte>, deep: nat, name: seq<Byte>)
    requires i <= |s| && Lex(s, i) == (Dir(name), j) && deep > 0 && |path| == MaxPath - 1
    ensures j == |s| ==> ResolveFrom(s, i, path, deep) == Some(path)
    ensures j < |s| && s[j] == '/' ==> ResolveFrom(s, i, path, deep) == ResolveFrom(s, j + 1, path, deep)
  {
    DropOnce(s, i, j, path, deep, name);
    ResolveAt(s, j, path, deep);
  }

  /** The resolver on a component the scanner refuses. */
  lemma StepBad(s: seq<Byte>, i: nat, path: seq<Byte>, deep: nat, seg: seq<Byte>)
    requires Spells(s, i, seg) && !SegOk(seg) && |path| <= MaxPath - 1
    ensures ResolveFrom(s, i, path, deep) == None
  {
    SpellsSlice(s, i, seg);
    LexBadSeg(s, i, seg);
  }

  lemma {:induction false} ResolveBySegs(s: seq<Byte>, i: nat, path: seq<Byte>, deep: nat, segs: seq<seq<Byte>>)
    requires |path| <= MaxPath - 1 && Segmented(s, i, segs)
    ensures ResolveFrom(s, i, path, deep) == ResolveSegs(segs, path, deep)
    decreases |segs|
  {
    var seg := segs[0];
    if !SegOk(seg) {
      StepBad(s, i, path, deep, seg);
    } else {
      StepGen(s, i, path, deep, seg);
      var next := Feed(path, deep, seg);
      if |segs| > 1 {
        ResolveBySegs(s, i + |seg| + 1, next.0, next.1, segs[1..]);
      } else {
        assert segs[1..] == [];
      }
    }
  }

  /** gemini_fs_resolve, for every input, is the resolver over the components
      between its '/'s. */
  lemma ResolveIsComponentwise(s: seq<Byte>)
    ensures Resolution(Some(s)) == ResolveSegs(Split(s), [], 0)
  {
    assert s[0..] == s;
    SplitSegmented(s, 0);
    ResolveBySegs(s, 0, [], 0, Split(s));
  }

  // ---------------------------------------------------------------------------
  // When gemini_fs_resolve returns NULL

  lemma AllOkCons(segs: seq<seq<Byte>>)
    requires segs != []
    ensures AllOk(segs) <==> SegOk(segs[0]) && AllOk(segs[1..])
  {
    assert forall k :: 0 <= k < |segs| - 1 ==> segs[1..][k] == segs[k + 1];
    if SegOk(segs[0]) && AllOk(segs[1..]) {
      forall k | 0 < k < |segs| ensures SegOk(segs[k]) {
        assert segs[k] == segs[1..][k - 1];
      }
    }
  }

  /** The resolver over components fails exactly when one of them is refused. */
  lemma {:induction false} SegsNone(segs: seq<seq<Byte>>, path: seq<Byte>, deep: nat)
    requires |path| <= MaxPath - 1
    ensures ResolveSegs(segs, path, deep).None? <==> !AllOk(segs)
    decreases |segs|
  {
    if segs != [] {
      AllOkCons(segs);
      if SegOk(segs[0]) {
        var next := Feed(path, deep, segs[0]);
        SegsNone(segs[1..], next.0, next.1);
      }
    }
  }

  /** gemini_fs_resolve returns NULL exactly when a component of the input has a
      byte without a transition or is too long for the component buffer. */
  lemma ResolveFails(s: seq<Byte>)
    ensures Resolution(Some(s)).None? <==> !AllOk(Split(s))
  {
    ResolveIsComponentwise(s);
    SegsNone(Split(s), [], 0);
  }

  lemma {:induction false} SegmentedRefused(s: seq<Byte>, i: nat, segs: seq<seq<Byte>>, q: nat)
    requires Segmented(s, i, segs) && i <= q < |s| && Forbidden(s[q])
    ensures !AllOk(segs)
    decreases |segs|
  {
    var seg := segs[0];
    AllOkCons(segs);
    if q < i + |seg| {
      assert seg[q - i] == s[q];
    } else {
      SegmentedRefused(s, i + |seg| + 1, segs[1..], q);
    }
  }

  /** A byte without a transition anywhere in the input: NULL. */
  lemma RefusedByte(s: seq<Byte>, q: nat)
    requires q < |s| && Forbidden(s[q])
    ensures Resolution(Some(s)) == None
  {
    assert s[0..] == s;
    SplitSegmented(s, 0);
    SegmentedRefused(s, 0, Split(s), q);
    ResolveFails(s);
  }

  lemma {:induction false} SegmentedLong(s: seq<Byte>, i: nat, segs: seq<seq<Byte>>, q: nat)
    requires Segmented(s, i, segs) && i <= q && q + MaxPath <= |s|
    requires forall k :: q <= k < q + MaxPath ==> s[k] != '/'
    ensures !AllOk(segs)
    decreases |segs|
  {
    var seg := segs[0];
    AllOkCons(segs);
    if q > i + |seg| {
      SegmentedLong(s, i + |seg| + 1, segs[1..], q);
    } else if i + |seg| < |s| {
      assert s[i + |seg|] == '/';
    }
  }

  /** MaxPath bytes in a row without a '/': a component too long for the
      buffer, and NULL. */
  lemma LongComponent(s: seq<Byte>, q: nat)
    requires q + MaxPath <= |s|
    requires forall k :: q <= k < q + MaxPath ==> s[k] != '/'
    ensures Resolution(Some(s)) == None
  {
    assert s[0..] == s;
    SplitSegmented(s, 0);
    SegmentedLong(s, 0, Split(s), q);
    ResolveFails(s);
  }

  // ---------------------------------------------------------------------------
  // The shape of the path

  lemma NoSlashCount(x: seq<Byte>)
    requires NoSlash(x)
    ensures multiset(x)[SLASH] == 0
  {
    assert SLASH !in x;
  }

  /** UP with a component to remove keeps the shape. */
  lemma PopShape(path: seq<Byte>, deep: nat)
    requires Shape(path, deep) && deep > 0
    ensures Shape(Pop(path), deep - 1)
  {
    var k := LastIndexOf(path, SLASH);
    if k < 0 {
      NoSlashCount(path);
    } else {
      var head := path[..k];
      var tail := path[k + 1..];
      assert path == head + [SLASH] + tail;
      NoSlashCount(tail);
      assert multiset(path) == multiset(head) + multiset([SLASH]) + multiset(tail);
      assert head[0] == path[0];
    }
  }

  /** DIR with room for its '/' keeps the shape, one component deeper. */
  lemma AppendShape(path: seq<Byte>, deep: nat, name: seq<Byte>)
    requires Shape(path, deep) && (|path| < MaxPath - 1 || (deep == 0 && |path| <= MaxPath - 1))
    requires name != [] && NoSlash(name)
    ensures Shape(Append(path, deep, name), deep + 1)
  {
    var left := MaxPath - 1 - |path|;
    var r := Append(path, deep, name);
    if deep > 0 {
      var x := Take(name, left - 1);
      assert r == path + [SLASH] + x;
      assert forall q :: 0 <= q < |x| ==> x[q] == name[q];
      NoSlashCount(x);
      assert multiset(r) == multiset(path) + multiset([SLASH]) + multiset(x);
      assert r[0] == path[0];
    } else {
      var x := Take(name, left);
      assert r == x;
      assert forall q :: 0 <= q < |x| ==> x[q] == name[q];
      NoSlashCount(x);
    }
  }

  /** Every DIR or UP token keeps the shape. */
  lemma StepShape(path: seq<Byte>, deep: nat, t: Token)
    requires Shape(path, deep) && |path| <= MaxPath - 1
    requires t.Dir? ==> t.name != [] && NoSlash(t.name)
    ensures Shape(Step(path, deep, t).0, Step(path, deep, t).1)
  {
    match t
    case Up =>
      if deep > 0 {
        PopShape(path, deep);
      }
    case Dir(name) =>
      if !(deep > 0 && |path| == MaxPath - 1) {
        AppendShape(path, deep, name);
      }
    case _ =>
  }

  lemma {:induction false} ResolveShape(s: seq<Byte>, i: nat, path: seq<Byte>, deep: nat)
    requires i <= |s| && |path| <= MaxPath - 1 && Shape(path, deep)
    ensures var r := ResolveFrom(s, i, path, deep); r.Some? ==> r.value == [] || r.value[0] != SLASH
    decreases |s| - i
  {
    var r := Lex(s, i);
    if r.0.Dir? || r.0.Up? {
      StepOnce(s, i, path, deep);
      var next := Step(path, deep, r.0);
      StepShape(path, deep, r.0);
      ResolveShape(s, r.1, next.0, next.1);
    }
  }

  /** The resolved path never starts with '/': it stays below the root. */
  lemma ResolveNoLeadingSlash(s: seq<Byte>)
    ensures var r := Resolution(Some(s)); r.Some? ==> r.value == [] || r.value[0] != SLASH
  {
    ResolveShape(s, 0, [], 0);
  }
}
