/** The examples of t/fs.c, and the two places where fs.c departs from what it
    evidently intends. */
module FsVectors {
  import opened Bytes
  import opened Fs
  import opened FsScan
  import opened FsResolve
  import opened FsReference

  lemma SplitSlash(t: seq<Byte>, seg: seq<Byte>, rest: seq<Byte>)
    requires t == seg + [SLASH] + rest && NoSlash(seg)
    ensures Split(t) == [seg] + Split(rest)
  {
    assert t[..|seg|] == seg;
    FirstSlashIs(t, |seg|);
    assert t[|seg| + 1..] == rest;
  }

  lemma SplitLast(t: seq<Byte>)
    requires NoSlash(t)
    ensures Split(t) == [t]
  {
    assert t[..|t|] == t;
    FirstSlashIs(t, |t|);
  }

  lemma SegsCons(seg: seq<Byte>, rest: seq<seq<Byte>>, path: seq<Byte>, deep: nat)
    requires |path| <= MaxPath - 1 && SegOk(seg)
    ensures ResolveSegs([seg] + rest, path, deep) == ResolveSegs(rest, Feed(path, deep, seg).0, Feed(path, deep, seg).1)
  {
    assert ([seg] + rest)[1..] == rest;
  }

  /** A leading "", "." or ".." is a no-op at the root: ".." with nothing
      accepted does not climb. */
  lemma SkipAtRoot(seg: seq<Byte>, t: seq<Byte>)
    requires seg == [] || Dot(seg) || DotDot(seg)
    ensures Resolution(Some(seg + [SLASH] + t)) == Resolution(Some(t))
  {
    var s := seg + [SLASH] + t;
    assert NoSlash(seg);
    SplitSlash(s, seg, t);
    ResolveIsComponentwise(s);
    ResolveIsComponentwise(t);
    SegsCons(seg, Split(t), [], 0);
  }

  /** ".." removes the component before it. */
  lemma UpRemoves(a: seq<Byte>, b: seq<Byte>, up: seq<Byte>, c: seq<Byte>)
    requires ValidName(a) && ValidName(b) && ValidName(c) && DotDot(up)
    requires |a| + |b| + |c| < MaxPath - 2
    ensures Resolution(Some(a + [SLASH] + b + [SLASH] + up + [SLASH] + c)) == Some(a + [SLASH] + c)
  {
    var s := a + [SLASH] + b + [SLASH] + up + [SLASH] + c;
    SplitFour(a, b, up, c);
    ResolveIsComponentwise(s);
    SegsUpRemoves(a, b, up, c);
  }

  lemma SplitFour(a: seq<Byte>, b: seq<Byte>, up: seq<Byte>, c: seq<Byte>)
    requires NoSlash(a) && NoSlash(b) && NoSlash(up) && NoSlash(c)
    ensures Split(a + [SLASH] + b + [SLASH] + up + [SLASH] + c) == [a, b, up, c]
  {
    var s3 := up + [SLASH] + c;
    var s2 := b + [SLASH] + s3;
    var s := a + [SLASH] + s2;
    SplitLast(c);
    SplitSlash(s3, up, c);
    assert Split(s3) == [up, c];
    SplitSlash(s2, b, s3);
    assert Split(s2) == [b, up, c];
    SplitSlash(s, a, s2);
    assert Split(s) == [a, b, up, c];
    SlashRegroup(a, b, up, c);
  }

  lemma SlashRegroup(a: seq<Byte>, b: seq<Byte>, c: seq<Byte>, d: seq<Byte>)
    ensures a + [SLASH] + b + [SLASH] + c + [SLASH] + d == a + [SLASH] + (b + [SLASH] + (c + [SLASH] + d))
  {
  }

  lemma SegsUpRemoves(a: seq<Byte>, b: seq<Byte>, up: seq<Byte>, c: seq<Byte>)
    requires ValidName(a) && ValidName(b) && ValidName(c) && DotDot(up)
    requires |a| + |b| + |c| < MaxPath - 2
    ensures ResolveSegs([a, b, up, c], [], 0) == Some(a + [SLASH] + c)
  {
    SegsCons(a, [b, up, c], [], 0);
    FeedName([], 0, a);
    SegsCons(b, [up, c], a, 1);
    FeedName(a, 1, b);
    SegsCons(up, [c], a + [SLASH] + b, 2);
    PopOf(a, b);
    assert Feed(a + [SLASH] + b, 2, up) == (a, 1);
    SegsCons(c, [], a, 1);
    FeedName(a, 1, c);
  }

  /** A valid name that fits is appended, after a '/' unless the path is empty. */
  lemma FeedName(path: seq<Byte>, deep: nat, seg: seq<Byte>)
    requires ValidName(seg) && |path| + 1 + |seg| <= MaxPath - 1 && (deep == 0 ==> path == [])
    ensures Feed(path, deep, seg) == (if deep == 0 then seg else path + [SLASH] + seg, deep + 1)
  {
    if deep == 0 {
      assert path + [] + seg == seg;
    }
  }

  lemma PopOf(a: seq<Byte>, b: seq<Byte>)
    requires NoSlash(b)
    ensures Pop(a + [SLASH] + b) == a
  {
    LastSlashAt(a, b);
    assert (a + [SLASH] + b)[..|a|] == a;
  }

  /** A path of two valid names, with or without a leading '/'. */
  lemma TwoNames(a: seq<Byte>, b: seq<Byte>)
    requires ValidName(a) && ValidName(b) && |a| + |b| < MaxPath - 1
    ensures Resolution(Some(a + [SLASH] + b)) == Some(a + [SLASH] + b)
    ensures Resolution(Some([SLASH] + a + [SLASH] + b)) == Some(a + [SLASH] + b)
  {
    assert Join([a, b]) == a + [SLASH] + b;
    CleanPathFixed([a, b]);
    SkipAtRoot([], a + [SLASH] + b);
    assert [] + [SLASH] + (a + [SLASH] + b) == [SLASH] + a + [SLASH] + b;
  }

  /** t/fs.c: "/foo/bar" and "bar/baz" are kept. */
  lemma KeepsNames(s: seq<Byte>, t: seq<Byte>)
    requires s == "/foo/bar" && t == "bar/baz"
    ensures Resolution(Some(s)) == Some("foo/bar")
    ensures Resolution(Some(t)) == Some("bar/baz")
  {
    var foo: seq<Byte>, bar: seq<Byte>, baz: seq<Byte> := "foo", "bar", "baz";
    assert s == [SLASH] + foo + [SLASH] + bar;
    assert t == bar + [SLASH] + baz;
    TwoNames(foo, bar);
    TwoNames(bar, baz);
    assert foo + [SLASH] + bar == "foo/bar";
    assert bar + [SLASH] + baz == "bar/baz";
  }

  /** t/fs.c: "/foo/bar/../baz" resolves to "foo/baz". */
  lemma UpAndDown(s: seq<Byte>)
    requires s == "/foo/bar/../baz"
    ensures Resolution(Some(s)) == Some("foo/baz")
  {
    var foo: seq<Byte>, bar: seq<Byte>, up: seq<Byte>, baz: seq<Byte> := "foo", "bar", "..", "baz";
    var rest := foo + [SLASH] + bar + [SLASH] + up + [SLASH] + baz;
    assert s == [] + [SLASH] + rest;
    SkipAtRoot([], rest);
    UpRemoves(foo, bar, up, baz);
    assert foo + [SLASH] + baz == "foo/baz";
  }

  /** A lone "", "." or "..": nothing is accepted. */
  lemma NothingKept(seg: seq<Byte>)
    requires seg == [] || Dot(seg) || DotDot(seg)
    ensures Resolution(Some(seg)) == Some([])
  {
    assert NoSlash(seg);
    SplitLast(seg);
    ResolveIsComponentwise(seg);
    SegsCons(seg, [], [], 0);
  }

  /** "../" repeated k times. */
  ghost function Climb(k: nat): seq<Byte> {
    if k == 0 then [] else ".." + [SLASH] + Climb(k - 1)
  }

  /** Climbing from the root stays at the root. */
  lemma {:induction false} ClimbAtRoot(k: nat, t: seq<Byte>)
    ensures Resolution(Some(Climb(k) + t)) == Resolution(Some(t))
  {
    if k > 0 {
      var up: seq<Byte> := "..";
      assert Climb(k) + t == up + [SLASH] + (Climb(k - 1) + t);
      SkipAtRoot(up, Climb(k - 1) + t);
      ClimbAtRoot(k - 1, t);
    } else {
      assert Climb(k) + t == t;
    }
  }

  lemma ClimbEight()
    ensures Climb(8) == "../../../../../../../../"
  {
  }

  /** t/fs.c: "/../../../../../../../../etc/shadow" cannot leave the root. */
  lemma StaysInRoot(s: seq<Byte>)
    requires s == "/../../../../../../../../etc/shadow"
    ensures Resolution(Some(s)) == Some("etc/shadow")
  {
    var etc: seq<Byte>, shadow: seq<Byte> := "etc", "shadow";
    var ups: seq<Byte> := "../../../../../../../../";
    ClimbEight();
    ShadowSplits(s, ups, etc, shadow);
    assert ValidName(etc) && ValidName(shadow);
    ClimbToName(8, etc, shadow);
    assert etc + [SLASH] + shadow == "etc/shadow";
  }

  /** However far "/../" climbs, a path of two names below it is kept. */
  lemma ClimbToName(k: nat, a: seq<Byte>, b: seq<Byte>)
    requires ValidName(a) && ValidName(b) && |a| + |b| < MaxPath - 1
    ensures Resolution(Some([] + [SLASH] + (Climb(k) + (a + [SLASH] + b)))) == Some(a + [SLASH] + b)
  {
    SkipAtRoot([], Climb(k) + (a + [SLASH] + b));
    ClimbAtRoot(k, a + [SLASH] + b);
    TwoNames(a, b);
  }

  lemma ShadowSplits(s: seq<Byte>, ups: seq<Byte>, etc: seq<Byte>, shadow: seq<Byte>)
    requires s == "/../../../../../../../../etc/shadow"
    requires ups == "../../../../../../../../" && etc == "etc" && shadow == "shadow"
    ensures s == [] + [SLASH] + (ups + (etc + [SLASH] + shadow))
  {
    var r := [] + [SLASH] + (ups + (etc + [SLASH] + shadow));
    assert |r| == |s|;
    forall k | 0 <= k < |s| ensures r[k] == s[k] {
    }
  }

  /** t/fs.c: "/.." and "/../." resolve to the root itself. */
  lemma UpToRoot(s: seq<Byte>, t: seq<Byte>)
    requires s == "/.." && t == "/../."
    ensures Resolution(Some(s)) == Some([])
    ensures Resolution(Some(t)) == Some([])
  {
    var up: seq<Byte>, dot: seq<Byte> := "..", ".";
    assert s == [] + [SLASH] + up;
    SkipAtRoot([], up);
    NothingKept(up);
    assert t == [] + [SLASH] + (up + [SLASH] + dot);
    SkipAtRoot([], up + [SLASH] + dot);
    SkipAtRoot(up, dot);
    NothingKept(dot);
  }

  /** t/fs.c: components that only start with dots are names like any other:
      "/.hidden/file", "/.hidden/..file" and "/something.d/test" are kept. */
  lemma HiddenFile(s: seq<Byte>)
    requires s == "/.hidden/file"
    ensures Resolution(Some(s)) == Some(".hidden/file")
  {
    var hidden: seq<Byte>, file: seq<Byte> := ".hidden", "file";
    assert s == [SLASH] + hidden + [SLASH] + file;
    TwoNames(hidden, file);
    assert hidden + [SLASH] + file == ".hidden/file";
  }

  lemma HiddenDotFile(s: seq<Byte>)
    requires s == "/.hidden/..file"
    ensures Resolution(Some(s)) == Some(".hidden/..file")
  {
    var hidden: seq<Byte>, file: seq<Byte> := ".hidden", "..file";
    assert s == [SLASH] + hidden + [SLASH] + file;
    TwoNames(hidden, file);
    assert hidden + [SLASH] + file == ".hidden/..file";
  }

  lemma DottedDirectory(s: seq<Byte>)
    requires s == "/something.d/test"
    ensures Resolution(Some(s)) == Some("something.d/test")
  {
    var dir: seq<Byte>, test: seq<Byte> := "something.d", "test";
    assert s == [SLASH] + dir + [SLASH] + test;
    TwoNames(dir, test);
    assert dir + [SLASH] + test == "something.d/test";
  }

  // ---------------------------------------------------------------------------
  // Findings

  /** As written, the scanner keeps the "." of a lone "." component: "/./foo"
      yields the DIR token ".foo"; with the buffer emptied on 2 -> 1 it is
      "foo", and "/./foo" resolves to "foo". */
  lemma KeptDot(s: seq<Byte>)
    requires s == "/./foo"
    ensures Scan(s, 0, 1, [], true) == (Dir(".foo"), 6)
    ensures Lex(s, 0) == (Dir("foo"), 6)
    ensures Resolution(Some(s)) == Some("foo")
  {
    KeptDotScan(s, true);
    KeptDotScan(s, false);
    KeptDotResolves(s);
  }

  lemma KeptDotResolves(s: seq<Byte>)
    requires s == "/./foo"
    ensures Resolution(Some(s)) == Some("foo")
  {
    var dot: seq<Byte>, foo: seq<Byte> := ".", "foo";
    assert s == [] + [SLASH] + (dot + [SLASH] + foo);
    SkipAtRoot([], dot + [SLASH] + foo);
    SkipAtRoot(dot, foo);
    assert Join([foo]) == foo;
    CleanPathFixed([foo]);
  }

  lemma KeptDotScan(s: seq<Byte>, asWritten: bool)
    requires s == "/./foo"
    ensures Scan(s, 0, 1, [], asWritten) == (Dir(if asWritten then ".foo" else "foo"), 6)
  {
    var kept: seq<Byte> := if asWritten then "." else [];
    assert s[0] == '/' && s[1] == '.' && s[2] == '/' && s[3] == 'f' && s[4] == 'o' && s[5] == 'o';
    assert [] + [s[1]] == ".";
    assert kept + [s[3]] == kept + "f";
    assert kept + "f" + [s[4]] == kept + "fo";
    assert kept + "fo" + [s[5]] == kept + "foo";
    assert Scan(s, 0, 1, [], asWritten) == Scan(s, 1, 1, [], asWritten);
    assert Scan(s, 1, 1, [], asWritten) == Scan(s, 2, 2, ".", asWritten);
    assert Scan(s, 2, 2, ".", asWritten) == Scan(s, 3, 1, kept, asWritten);
    assert Scan(s, 3, 1, kept, asWritten) == Scan(s, 4, 4, kept + "f", asWritten);
    assert Scan(s, 4, 4, kept + "f", asWritten) == Scan(s, 5, 4, kept + "fo", asWritten);
    assert Scan(s, 5, 4, kept + "fo", asWritten) == Scan(s, 6, 4, kept + "foo", asWritten);
    assert kept + "foo" == if asWritten then ".foo" else "foo";
  }

  /** The input of 1023 bytes 'a', then "/b": the first component fills the
      path's budget exactly, and the DIR case for "b" computes its copy count
      as 0 - 1 in size_t, 2^64 - 1 bytes for a buffer of MaxPath + 1. The
      corrected resolver drops "b". */
  lemma BudgetWraps(s: seq<Byte>)
    requires s == seq(MaxPath - 1, _ => 'a') + "/b"
    ensures var a := seq(MaxPath - 1, _ => 'a');
      ResolveFrom(s, 0, [], 0) == ResolveFrom(s, MaxPath, a, 1) &&
      Lex(s, MaxPath).0 == Dir("b") &&
      AsWrittenLeft(|a|, 1) == 0x1_0000_0000_0000_0000 - 1
    ensures Resolution(Some(s)) == Some(seq(MaxPath - 1, _ => 'a'))
  {
    var a: seq<Byte> := seq(MaxPath - 1, _ => 'a');
    var b: seq<Byte> := "b";
    assert s[..MaxPath - 1] == a && s[MaxPath - 1] == '/';
    assert NoSlash(a) && SegOk(a) && !Dot(a) && !DotDot(a);
    LexDir(s, 0, a);
    ResolveDir(s, 0, MaxPath - 1, [], 0, a, a);
    assert s[MaxPath..MaxPath + 1] == b;
    LexDir(s, MaxPath, b);
    SliceSpells(s, MaxPath, b);
    StepGen(s, MaxPath, a, 1, b);
  }

  /** The copy at fs.c:104 truncates silently, and a truncated name can read
      as "..": after a 1020-byte name the budget leaves two bytes for "..x",
      so the path gets the component ".." and a depth of 2.  The result is
      not a normalised path, and resolving it once more climbs back to the
      root. */
  lemma TruncatedToUp(a: seq<Byte>, x: seq<Byte>)
    requires ValidName(a) && |a| == MaxPath - 4 && x == "..x"
    ensures Resolution(Some(a + [SLASH] + x)) == Some(a + [SLASH] + x[..2])
    ensures DotDot(x[..2])
    ensures Resolution(Some(a + [SLASH] + x[..2])) == Some([])
  {
    var up := x[..2];
    assert NoSlash(x) && NoSlash(up) && SegOk(x) && SegOk(up);
    assert !Dot(x) && !DotDot(x) && DotDot(up);
    var s := a + [SLASH] + x;
    SplitSlash(s, a, x);
    SplitLast(x);
    ResolveIsComponentwise(s);
    SegsCons(a, [x], [], 0);
    FeedName([], 0, a);
    SegsCons(x, [], a, 1);
    assert Feed(a, 1, x) == (a + [SLASH] + up, 2);
    var t := a + [SLASH] + up;
    SplitSlash(t, a, up);
    SplitLast(up);
    ResolveIsComponentwise(t);
    SegsCons(a, [up], [], 0);
    SegsCons(up, [], a, 1);
    assert LastIndexOf(a, SLASH) < 0;
    assert Feed(a, 1, up) == ([], 0);
  }
}
