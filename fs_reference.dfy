/** gemini_fs_resolve against a reference definition: split the input on '/',
    keep a stack of accepted components, join them with '/'. */
module FsReference {
  import opened Bytes
  import opened Fs
  import opened FsScan
  import opened FsResolve

  lemma NormalizeCons(seg: seq<Byte>, rest: seq<seq<Byte>>, stack: seq<seq<Byte>>)
    ensures Normalize([seg] + rest, stack) == Normalize(rest, Apply(stack, seg))
  {
    assert ([seg] + rest)[1..] == rest;
  }

  lemma {:induction false} JoinSnoc(stack: seq<seq<Byte>>, x: seq<Byte>)
    requires stack != []
    ensures Join(stack + [x]) == Join(stack) + [SLASH] + x
    decreases |stack|
  {
    if |stack| > 1 {
      assert (stack + [x])[1..] == stack[1..] + [x];
      JoinSnoc(stack[1..], x);
    }
  }

  /** Join's length grows by exactly the separator and the new component. */
  lemma JoinSnocLength(stack: seq<seq<Byte>>, x: seq<Byte>)
    ensures |Join(stack + [x])| == |Join(stack)| + (if stack == [] then 0 else 1) + |x|
  {
    if stack != [] {
      JoinSnoc(stack, x);
    } else {
      assert stack + [x] == [x];
    }
  }

  /** Cutting a joined path at its last '/' drops its last component. */
  lemma PopJoin(stack: seq<seq<Byte>>)
    requires stack != [] && NoSlash(stack[|stack| - 1])
    ensures Pop(Join(stack)) == Join(stack[..|stack| - 1])
  {
    var init := stack[..|stack| - 1];
    var x := stack[|stack| - 1];
    assert stack == init + [x];
    if init == [] {
      PopOne(x);
    } else {
      PopSnoc(init, x);
    }
  }

  lemma PopOne(x: seq<Byte>)
    requires NoSlash(x)
    ensures Pop(Join([x])) == []
  {
    var k := LastIndexOf(x, SLASH);
    if k >= 0 {
      assert x[k] == SLASH;
    }
  }

  lemma PopSnoc(init: seq<seq<Byte>>, x: seq<Byte>)
    requires init != [] && NoSlash(x)
    ensures Pop(Join(init + [x])) == Join(init)
  {
    var u := Join(init);
    JoinSnoc(init, x);
    LastSlashAt(u, x);
    assert (u + [SLASH] + x)[..|u|] == u;
  }

  lemma {:induction false} LastSlashAt(u: seq<Byte>, x: seq<Byte>)
    requires NoSlash(x)
    ensures LastIndexOf(u + [SLASH] + x, SLASH) == |u|
    decreases |x|
  {
    var v := u + [SLASH] + x;
    if x == [] {
      assert v == u + [SLASH];
    } else {
      var y := x[..|x| - 1];
      assert v[..|v| - 1] == u + [SLASH] + y;
      assert v[|v| - 1] == x[|x| - 1];
      LastSlashAt(u, y);
    }
  }

  /** Appending to a joined path, with room to spare, pushes the component. */
  lemma AppendJoin(stack: seq<seq<Byte>>, seg: seq<Byte>)
    requires |Join(stack)| + (if stack == [] then 0 else 1) + |seg| <= MaxPath - 1
    ensures |Join(stack)| < MaxPath - 1 || stack == []
    ensures Append(Join(stack), |stack|, seg) == Join(stack + [seg])
  {
    if stack == [] {
      assert stack + [seg] == [seg];
    } else {
      JoinSnoc(stack, seg);
    }
  }

  // ---------------------------------------------------------------------------
  // The resolver computes the reference

  /** The invariant of the bridge: at a component start i, the accepted components
      are valid and their joined form is shorter than what has been read. */
  ghost predicate BridgeInv(s: seq<Byte>, i: nat, stack: seq<seq<Byte>>) {
    i <= |s| < MaxPath && Clean(s) && (i == 0 || s[i - 1] == '/') &&
    ValidStack(stack) && (stack == [] || |Join(stack)| < i)
  }

  lemma PushInv(s: seq<Byte>, i: nat, j: nat, stack: seq<seq<Byte>>, seg: seq<Byte>)
    requires BridgeInv(s, i, stack) && i + |seg| == j <= |s| && ValidName(seg)
    ensures |Join(stack)| < MaxPath - 1 || stack == []
    ensures Append(Join(stack), |stack|, seg) == Join(stack + [seg])
    ensures |Join(stack + [seg])| <= j && ValidStack(stack + [seg])
  {
    var next := stack + [seg];
    JoinSnocLength(stack, seg);
    AppendJoin(stack, seg);
    assert ValidStack(next) by {
      forall k | 0 <= k < |next| ensures ValidName(next[k]) {
        if k < |stack| {
          assert next[k] == stack[k];
        }
      }
    }
  }

  /** One component against a stack that fits the input read so far: the
      resolver's path and depth are the joined stack after Apply. */
  lemma FeedRef(s: seq<Byte>, i: nat, stack: seq<seq<Byte>>, seg: seq<Byte>)
    requires BridgeInv(s, i, stack) && Spells(s, i, seg)
    requires i + |seg| == |s| || s[i + |seg|] == '/'
    ensures SegOk(seg) && |Join(stack)| <= MaxPath - 1
    ensures Feed(Join(stack), |stack|, seg) == (Join(Apply(stack, seg)), |Apply(stack, seg)|)
    ensures ValidStack(Apply(stack, seg)) && |Join(Apply(stack, seg))| <= i + |seg|
    ensures i + |seg| < |s| ==> BridgeInv(s, i + |seg| + 1, Apply(stack, seg))
  {
    var j := i + |seg|;
    SpellsSlice(s, i, seg);
    CleanSlice(s, i, j);
    if seg == [] || Dot(seg) {
    } else if DotDot(seg) {
      FeedUp(stack, seg);
    } else {
      PushInv(s, i, j, stack, seg);
      StepDirIs(Join(stack), |stack|, seg, Join(stack + [seg]));
    }
  }

  /** ".." pops the joined stack's last component, or does nothing at the root. */
  lemma FeedUp(stack: seq<seq<Byte>>, seg: seq<Byte>)
    requires ValidStack(stack) && DotDot(seg) && |Join(stack)| <= MaxPath - 1
    ensures Feed(Join(stack), |stack|, seg) == (Join(Apply(stack, seg)), |Apply(stack, seg)|)
    ensures ValidStack(Apply(stack, seg)) && |Join(Apply(stack, seg))| <= |Join(stack)|
  {
    if stack != [] {
      var next := stack[..|stack| - 1];
      assert ValidName(stack[|stack| - 1]);
      PopJoin(stack);
      StepUpIs(Join(stack), |stack|, Join(next), |next|);
      assert ValidStack(next);
    }
  }

  lemma {:induction false} SegsRef(s: seq<Byte>, i: nat, stack: seq<seq<Byte>>, segs: seq<seq<Byte>>)
    requires BridgeInv(s, i, stack) && Segmented(s, i, segs)
    ensures |Join(stack)| <= MaxPath - 1
    ensures ResolveSegs(segs, Join(stack), |stack|) == Some(Join(Normalize(segs, stack)))
    ensures ValidStack(Normalize(segs, stack)) && |Join(Normalize(segs, stack))| <= |s|
    decreases |segs|
  {
    var seg := segs[0];
    FeedRef(s, i, stack, seg);
    if |segs| == 1 {
      assert segs[1..] == [];
    } else {
      SegsRef(s, i + |seg| + 1, Apply(stack, seg), segs[1..]);
    }
  }

  /** For an input that fits the budget and has no refused byte, gemini_fs_resolve
      is the reference: split on '/', drop "" and ".", pop on "..", never above
      the root, and join what is left with '/'. What is left consists of valid
      names and is no longer than the input. */
  lemma ResolveMatchesReference(s: seq<Byte>)
    requires Clean(s) && |s| < MaxPath
    ensures Resolution(Some(s)) == Some(Join(Normalize(Split(s), [])))
    ensures ValidStack(Normalize(Split(s), [])) && |Join(Normalize(Split(s), []))| <= |s|
  {
    assert s[0..] == s;
    SplitSegmented(s, 0);
    ResolveIsComponentwise(s);
    assert BridgeInv(s, 0, []);
    SegsRef(s, 0, [], Split(s));
  }

  // ---------------------------------------------------------------------------
  // Clean paths are fixed points

  /** A stack of valid names is pushed whole. */
  lemma {:induction false} NormalizeValid(names: seq<seq<Byte>>, stack: seq<seq<Byte>>)
    requires ValidStack(names)
    ensures Normalize(names, stack) == stack + names
    decreases |names|
  {
    if names != [] {
      assert ValidName(names[0]);
      assert ValidStack(names[1..]) by {
        forall k | 0 <= k < |names| - 1 ensures ValidName(names[1..][k]) {
          assert names[1..][k] == names[k + 1];
        }
      }
      NormalizeValid(names[1..], stack + [names[0]]);
      assert stack + [names[0]] + names[1..] == stack + names;
    }
  }

  lemma CleanSlashed(a: seq<Byte>, b: seq<Byte>)
    requires Clean(a) && Clean(b)
    ensures Clean(a + [SLASH] + b)
  {
    var t := a + [SLASH] + b;
    forall q | 0 <= q < |t| ensures !Forbidden(t[q]) {
      if q < |a| {
        assert t[q] == a[q];
      } else if q > |a| {
        assert t[q] == b[q - |a| - 1];
      }
    }
  }

  lemma {:induction false} JoinClean(names: seq<seq<Byte>>)
    requires ValidStack(names)
    ensures Clean(Join(names))
    decreases |names|
  {
    if |names| > 1 {
      assert ValidName(names[0]);
      assert ValidStack(names[1..]) by {
        forall k | 0 <= k < |names| - 1 ensures ValidName(names[1..][k]) {
          assert names[1..][k] == names[k + 1];
        }
      }
      JoinClean(names[1..]);
      CleanSlashed(names[0], Join(names[1..]));
    } else if |names| == 1 {
      assert ValidName(names[0]);
    }
  }

  /** Splitting a joined stack of valid names gives the names back. */
  lemma {:induction false} SplitJoin(names: seq<seq<Byte>>)
    requires names != [] && ValidStack(names)
    ensures Split(Join(names)) == names
    decreases |names|
  {
    var x := names[0];
    assert ValidName(x);
    if |names| == 1 {
      assert x[..|x|] == x;
      FirstSlashIs(x, |x|);
    } else {
      var rest := names[1..];
      assert ValidStack(rest) by {
        forall k | 0 <= k < |rest| ensures ValidName(rest[k]) {
          assert rest[k] == names[k + 1];
        }
      }
      var t := Join(names);
      assert t == x + [SLASH] + Join(rest);
      assert t[..|x|] == x;
      assert t[|x|] == SLASH;
      FirstSlashIs(t, |x|);
      assert t[|x| + 1..] == Join(rest);
      SplitJoin(rest);
      assert names == [x] + rest;
    }
  }

  /** A path made of valid names that fits the budget resolves to itself
      ("bar/baz" stays "bar/baz"). */
  lemma CleanPathFixed(names: seq<seq<Byte>>)
    requires ValidStack(names) && |Join(names)| < MaxPath
    ensures Resolution(Some(Join(names))) == Some(Join(names))
  {
    var t := Join(names);
    JoinClean(names);
    ResolveMatchesReference(t);
    if names == [] {
      assert Split(t) == [[]];
      assert Normalize([[]], []) == Normalize([], []);
    } else {
      SplitJoin(names);
      NormalizeValid(names, []);
      assert [] + names == names;
    }
  }

  /** Resolving a resolved path changes nothing, for inputs within the budget. */
  lemma ResolveIdempotent(s: seq<Byte>)
    requires Clean(s) && |s| < MaxPath
    ensures Resolution(Some(s)).Some?
    ensures Resolution(Some(Resolution(Some(s)).value)) == Resolution(Some(s))
  {
    ResolveMatchesReference(s);
    CleanPathFixed(Normalize(Split(s), []));
  }

  // ---------------------------------------------------------------------------
  // gemini_fs_path

  /** gemini_fs_path fails exactly when the file does not resolve; otherwise the
      result starts with the root, has exactly one '/' where the root ends, and
      the resolved file after it. */
  lemma RootPathJoin(root: seq<Byte>, file: Option<seq<Byte>>)
    ensures RootPath(root, file).None? <==> Resolution(file).None?
    ensures RootPath(root, file).Some? ==>
      var t := TrimSlashes(root); var r := RootPath(root, file).value;
      t <= root && |r| > |t| && r[..|t|] == t && r[|t|] == SLASH &&
      (t == [] || r[|t| - 1] != SLASH) && (|r| == |t| + 1 || r[|t| + 1] != SLASH) &&
      r[|t| + 1..] == Resolution(file).value
  {
    if file.Some? {
      ResolveNoLeadingSlash(file.value);
      var t := TrimSlashes(root);
      if RootPath(root, file).Some? {
        var r := RootPath(root, file).value;
        assert r[..|t|] == t;
        assert r[|t| + 1..] == Resolution(file).value;
      }
    }
  }
}
