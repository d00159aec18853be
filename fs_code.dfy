/** The code of fs.c over its buffers: s_parse_path on a parser object,
    gemini_fs_resolve on a path array, gemini_fs_path on the joined array. */
module FsCode {
  import opened Bytes
  import opened Fs
  import opened FsResolve

  /** struct _parser: the input, the index of what is left to parse (p->src),
      and the component buffer. */
  class PathParser {
    const src: seq<Byte>
    var pos: nat
    const buf: array<Byte>

    ghost predicate Valid()
      reads this
    {
      pos <= |src| && buf.Length == MaxPath
    }

    /** memset(&parser, 0, ...); parser.src = file. */
    constructor (file: seq<Byte>)
      ensures src == file && pos == 0 && Valid() && fresh(buf)
    {
      src := file;
      pos := 0;
      buf := new Byte[MaxPath](_ => NUL);
    }

    /** s_parse_path: one token, with the 2 -> 1 transition emptying the
        component buffer. A DIR token leaves its name in buf as a C string. */
    method Parse() returns (code: int)
      requires Valid()
      modifies this, buf
      ensures Valid()
      ensures pos == Lex(src, old(pos)).1 && code == Code(Lex(src, old(pos)).0)
      ensures Lex(src, old(pos)).0.Dir? ==> IsCString(buf[..], Lex(src, old(pos)).0.name)
    {
      ghost var start := pos;
      var left := MaxPath - 1;
      var state := 1;
      var fill := 0;
      ghost var comp: seq<Byte> := [];
      while pos < |src|
        invariant start <= pos <= |src| && Valid()
        invariant 1 <= state <= 4 && (state == 4 ==> comp != [])
        invariant fill == |comp| <= MaxPath - 1 && left == MaxPath - 1 - fill
        invariant buf[..fill] == comp && NoSlash(comp) && Clean(comp)
        invariant Lex(src, start) == Scan(src, pos, state, comp, false)
        decreases |src| - pos
      {
        var c := src[pos];
        var to := FsNext(state, c);
        if to < 0 {
          return -1;
        }
        var from := state * 100 + to;
        if from == 301 {
          return 1;
        } else if from == 401 {
          buf[fill] := NUL;
          return 0;
        } else if from == 102 || from == 104 || from == 203 || from == 204 || from == 304 || from == 404 {
          if left == 0 {
            return -1;
          }
          buf[fill] := c;
          fill := fill + 1;
          left := left - 1;
          comp := comp + [c];
        } else if from == 201 {
          fill := 0;
          left := MaxPath - 1;
          comp := [];
        }
        state := to;
        pos := pos + 1;
      }
      if state == 3 {
        return 1;
      } else if state == 4 {
        buf[fill] := NUL;
        return 0;
      }
      return 2;
    }
  }

  /** The bytes copied into a C string array: a prefix, then n bytes of b,
      which holds the C string name, then a NUL. The C string is the prefix
      and as much of name as n allows. */
  lemma CopiedCString(a: seq<Byte>, prefix: seq<Byte>, b: seq<Byte>, name: seq<Byte>, n: nat)
    requires n <= |b| && |prefix| + n < |a|
    requires a[..|prefix| + n] == prefix + b[..n] && a[|prefix| + n] == NUL
    requires IsCString(b, name) && NoNul(prefix)
    ensures IsCString(a, prefix + Take(name, n))
  {
    var m := |prefix|;
    if |name| < n {
      assert a[m + |name|] == b[|name|];
      assert a[..m + |name|] == prefix + name by {
        assert a[..m + |name|] == a[..m + n][..m + |name|];
        assert b[..n][..|name|] == name;
      }
    } else {
      assert b[..n] == name[..n];
    }
  }

  /** gemini_fs_resolve: the path buffer of MaxPath + 1 bytes holds the C
      string built so far; NULL is None. */
  method Resolve(file: Option<seq<Byte>>) returns (r: Option<seq<Byte>>)
    ensures r == Resolution(file)
  {
    if file.None? {
      return None;
    }
    var s := file.value;
    var parser := new PathParser(s);
    var path := new Byte[MaxPath + 1](_ => NUL);
    var deep: nat := 0;
    ghost var cur: seq<Byte> := [];
    var done := false;
    r := None;
    while !done
      invariant parser.Valid() && parser.src == s && fresh(parser.buf) && path != parser.buf
      invariant path.Length == MaxPath + 1
      invariant done ==> r == Resolution(file)
      invariant !done ==> IsCString(path[..], cur) && |cur| <= MaxPath - 1 && Shape(cur, deep)
      invariant !done ==> ResolveFrom(s, parser.pos, cur, deep) == ResolveFrom(s, 0, [], 0)
      decreases if done then 0 else 1, |s| - parser.pos
    {
      ghost var at := parser.pos;
      ghost var tok := Lex(s, at).0;
      var code := parser.Parse();
      if code == -1 {
        r, done := None, true;
      } else if code == 2 {
        var n := StrLen(path, cur);
        r, done := Some(path[..n]), true;
      } else {
        deep, cur := ApplyToken(path, parser.buf, code, deep, s, at, parser.pos, cur);
      }
    }
  }

  /** The DIR and UP cases of gemini_fs_resolve's loop, for the token the
      scanner read from index at to index next. */
  method ApplyToken(path: array<Byte>, buf: array<Byte>, code: int, deep: nat,
                    ghost s: seq<Byte>, ghost at: nat, ghost next: nat, ghost cur: seq<Byte>)
    returns (deep2: nat, ghost cur2: seq<Byte>)
    requires at <= |s| && path.Length == MaxPath + 1 && buf.Length == MaxPath && path != buf
    requires (Lex(s, at).0.Dir? || Lex(s, at).0.Up?) && code == Code(Lex(s, at).0) && next == Lex(s, at).1
    requires Lex(s, at).0.Dir? ==> IsCString(buf[..], Lex(s, at).0.name)
    requires IsCString(path[..], cur) && |cur| <= MaxPath - 1 && Shape(cur, deep)
    modifies path
    ensures IsCString(path[..], cur2) && |cur2| <= MaxPath - 1 && Shape(cur2, deep2)
    ensures ResolveFrom(s, at, cur, deep) == ResolveFrom(s, next, cur2, deep2)
  {
    if code == 0 {
      deep2, cur2 := ApplyDir(path, buf, deep, s, at, next, cur, Lex(s, at).0.name);
    } else {
      deep2, cur2 := ApplyUp(path, deep, s, at, next, cur);
    }
  }

  method ApplyDir(path: array<Byte>, buf: array<Byte>, deep: nat,
                  ghost s: seq<Byte>, ghost at: nat, ghost next: nat, ghost cur: seq<Byte>, ghost name: seq<Byte>)
    returns (deep2: nat, ghost cur2: seq<Byte>)
    requires at <= |s| && path.Length == MaxPath + 1 && buf.Length == MaxPath && path != buf
    requires Lex(s, at) == (Dir(name), next) && IsCString(buf[..], name)
    requires IsCString(path[..], cur) && |cur| <= MaxPath - 1 && Shape(cur, deep)
    modifies path
    ensures IsCString(path[..], cur2) && |cur2| <= MaxPath - 1 && Shape(cur2, deep2)
    ensures ResolveFrom(s, at, cur, deep) == ResolveFrom(s, next, cur2, deep2)
  {
    StepShape(cur, deep, Dir(name));
    var len := StrLen(path, cur);
    if deep > 0 && len == MaxPath - 1 {
      DropOnce(s, at, next, cur, deep, name);
      deep2, cur2 := deep, cur;
    } else {
      cur2 := Append(cur, deep, name);
      AppendName(path, len, deep, buf, cur, name);
      DirOnce(s, at, next, cur, deep, name, cur2);
      deep2 := deep + 1;
    }
  }

  method ApplyUp(path: array<Byte>, deep: nat, ghost s: seq<Byte>, ghost at: nat, ghost next: nat, ghost cur: seq<Byte>)
    returns (deep2: nat, ghost cur2: seq<Byte>)
    requires at <= |s| && Lex(s, at) == (Up, next)
    requires IsCString(path[..], cur) && |cur| <= MaxPath - 1 && Shape(cur, deep)
    modifies path
    ensures IsCString(path[..], cur2) && |cur2| <= MaxPath - 1 && Shape(cur2, deep2)
    ensures ResolveFrom(s, at, cur, deep) == ResolveFrom(s, next, cur2, deep2)
  {
    StepShape(cur, deep, Up);
    if deep > 0 {
      CutLast(path, cur);
      cur2 := Pop(cur);
      UpOnce(s, at, next, cur, deep, cur2, deep - 1);
      deep2 := deep - 1;
    } else {
      UpOnce(s, at, next, cur, deep, cur, 0);
      deep2, cur2 := deep, cur;
    }
  }

  /** The DIR case of gemini_fs_resolve with room for the '/': the separator,
      then `left` bytes of the component buffer (the name, its NUL and whatever
      an earlier component left behind), then a NUL. */
  method AppendName(path: array<Byte>, len: nat, deep: nat, buf: array<Byte>, ghost cur: seq<Byte>, ghost name: seq<Byte>)
    requires path.Length == MaxPath + 1 && buf.Length == MaxPath && path != buf
    requires IsCString(path[..], cur) && len == |cur| <= MaxPath - 1 && IsCString(buf[..], name)
    requires |cur| < MaxPath - 1 || deep == 0
    modifies path
    ensures IsCString(path[..], Append(cur, deep, name))
  {
    var left := MaxPath - len - 1;
    var p := len;
    if deep > 0 {
      path[p] := SLASH;
      p := p + 1;
      left := left - 1;
    }
    ghost var prefix := path[..p];
    assert prefix == cur + (if deep > 0 then [SLASH] else []);
    ghost var total := left;
    var q := 0;
    while left > 0
      invariant 0 <= left && p == |prefix| + q && q + left == total && |prefix| + total == MaxPath - 1
      invariant path[..p] == prefix + buf[..q]
      decreases left
    {
      path[p] := buf[q];
      p := p + 1;
      q := q + 1;
      left := left - 1;
    }
    path[p] := NUL;
    CopiedCString(path[..], prefix, buf[..], name, total);
    assert prefix + Take(name, total) == Append(cur, deep, name);
  }

  /** The UP case of gemini_fs_resolve: a NUL over the last '/', or over the
      first byte when there is none. */
  method CutLast(path: array<Byte>, ghost cur: seq<Byte>)
    requires IsCString(path[..], cur)
    modifies path
    ensures IsCString(path[..], Pop(cur))
  {
    var k := StrRChr(path, SLASH, cur);
    if k < 0 {
      k := 0;
    }
    path[k] := NUL;
    assert path[..k] == Pop(cur);
  }

  /** gemini_fs_path: NULL when the file does not resolve, otherwise the root
      joined with the resolved file. */
  method FsPath(root: seq<Byte>, file: Option<seq<Byte>>) returns (r: Option<seq<Byte>>)
    ensures r == RootPath(root, file)
  {
    var resolved := Resolve(file);
    if resolved.None? {
      return None;
    }
    var path := JoinRoot(root, resolved.value);
    return Some(path);
  }

  /** The buffer of gemini_fs_path: the root copied in, its trailing '/'s cut,
      one '/', then the resolved file and a NUL. */
  method JoinRoot(root: seq<Byte>, resolved: seq<Byte>) returns (r: seq<Byte>)
    ensures r == TrimSlashes(root) + [SLASH] + resolved
  {
    var l1 := |root|;
    var l2 := |resolved|;
    var path := new Byte[l1 + 1 + l2 + 1];
    CopyInto(path, 0, root);
    l1 := StripSlashes(path, l1, root);
    ghost var kept := TrimSlashes(root);
    path[l1] := SLASH;
    assert path[..l1 + 1] == kept + [SLASH];
    l1 := l1 + 1;
    CopyInto(path, l1, resolved);
    path[l1 + l2] := NUL;
    assert path[..l1 + l2] == path[..l1] + path[l1..l1 + l2];
    return path[..l1 + l2];
  }

  /** The loop of gemini_fs_path that steps back over the root's trailing '/'s. */
  method StripSlashes(path: array<Byte>, n: nat, ghost root: seq<Byte>) returns (l1: nat)
    requires n == |root| <= path.Length && path[..n] == root
    ensures l1 == |TrimSlashes(root)| && path[..l1] == TrimSlashes(root)
  {
    l1 := n;
    while l1 > 0 && path[l1 - 1] == SLASH
      invariant l1 <= |root|
      invariant TrimSlashes(root[..l1]) == TrimSlashes(root)
      decreases l1
    {
      assert path[l1 - 1] == root[l1 - 1];
      assert root[..l1][..l1 - 1] == root[..l1 - 1];
      l1 := l1 - 1;
    }
    if l1 > 0 {
      assert path[l1 - 1] == root[l1 - 1];
    }
    assert TrimSlashes(root[..l1]) == root[..l1];
    assert path[..l1] == root[..l1];
  }
}
