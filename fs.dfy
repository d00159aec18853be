/** fs.c: confining a client-supplied path to the document root.

    s_parse_path scans one path component per call through a second
    finite-state machine (1 = at a component start, 2 = read ".", 3 = read "..",
    4 = inside an ordinary component), copying the component's bytes into the
    parser's buffer. gemini_fs_resolve feeds the components to an accumulator
    path: an ordinary component is appended after a '/', ".." removes the last
    one, and nothing ever climbs above the root. gemini_fs_path puts the
    document root in front. */
module Fs {
  import opened Bytes

  /** GEMINI_MAX_PATH; its definition is not part of this model, 1024 is chosen. */
  const MaxPath := 1024

  /** The results of s_parse_path: PARSED_ERR, PARSED_DIR, PARSED_UP, PARSED_END. */
  datatype Token = Err | Dir(name: seq<Byte>) | Up | End

  function Code(t: Token): int {
    match t
    case Err => -1
    case Dir(_) => 0
    case Up => 1
    case End => 2
  }

  /** The bytes with no transition in the path scanner's table (the table's
      source file is not part of this model; this is a reconstruction): the
      control bytes and DEL. */
  predicate Forbidden(c: Byte) { c < ' ' || c as int == 0x7f }

  predicate Clean(s: seq<Byte>) { forall i :: 0 <= i < |s| ==> !Forbidden(s[i]) }

  predicate NoSlash(s: seq<Byte>) { forall i :: 0 <= i < |s| ==> s[i] != '/' }

  /** The transition table of the path scanner (a reconstruction). */
  function FsNext(state: int, c: Byte): (to: int)
    ensures to == -1 <==> Forbidden(c)
    ensures to == 1 <==> !Forbidden(c) && c == '/'
    ensures -1 <= to <= 4 && to != 0
  {
    if Forbidden(c) then -1
    else if c == '/' then 1
    else if c == '.' && state == 1 then 2
    else if c == '.' && state == 2 then 3
    else 4
  }

  /** s_parse_path from index i of s, in `state`, with the component bytes comp
      copied so far: the token and the index p->src is left at. A transition
      to a state other than 1 copies the byte, and fails once the buffer's
      MaxPath - 1 bytes are used. fs.c has no case for 2 -> 1, so a lone "."
      stays in the buffer and starts the next component; asWritten keeps that
      behaviour, and otherwise the buffer is emptied (see Findings). */
  function Scan(s: seq<Byte>, i: nat, state: int, comp: seq<Byte>, asWritten: bool): (r: (Token, nat))
    requires i <= |s| && |comp| <= MaxPath - 1
    requires state == 4 ==> comp != []
    ensures i <= r.1 <= |s|
    ensures state == 1 && (r.0.Dir? || r.0.Up?) ==> i < r.1
    ensures r.0.Dir? ==> 1 <= |r.0.name| <= MaxPath - 1
    ensures r.0.Dir? && NoSlash(comp) && Clean(comp) ==> NoSlash(r.0.name) && Clean(r.0.name)
    ensures r.0.End? ==> r.1 == |s|
    decreases |s| - i
  {
    if i == |s| then
      (if state == 3 then (Up, i) else if state == 4 then (Dir(comp), i) else (End, i))
    else
      var to := FsNext(state, s[i]);
      var t := state * 100 + to;
      if to < 0 then (Err, i)
      else if t == 301 then (Up, i)
      else if t == 401 then (Dir(comp), i)
      else if to != 1 then
        if |comp| == MaxPath - 1 then (Err, i) else Scan(s, i + 1, to, comp + [s[i]], asWritten)
      else if t == 201 && !asWritten then Scan(s, i + 1, 1, [], asWritten)
      else Scan(s, i + 1, 1, comp, asWritten)
  }

  /** One call of s_parse_path with p->src at index i, corrected as above. */
  function Lex(s: seq<Byte>, i: nat): (r: (Token, nat))
    requires i <= |s|
    ensures i <= r.1 <= |s|
    ensures (r.0.Dir? || r.0.Up?) ==> i < r.1
    ensures r.0.Dir? ==> 1 <= |r.0.name| <= MaxPath - 1 && NoSlash(r.0.name) && Clean(r.0.name)
  {
    Scan(s, i, 1, [], false)
  }

  function Take(name: seq<Byte>, k: nat): (r: seq<Byte>)
    ensures |r| <= k && r <= name
    ensures |name| <= k ==> r == name
  {
    if |name| <= k then name else name[..k]
  }

  /** The DIR case of gemini_fs_resolve: a '/' when the path already has a
      component, then as much of the name as the remaining budget of
      MaxPath - 1 bytes allows. The case of no byte left for the '/' is not
      here: fs.c's size_t budget wraps there (see Findings). */
  function Append(path: seq<Byte>, deep: nat, name: seq<Byte>): (r: seq<Byte>)
    requires |path| < MaxPath - 1 || (deep == 0 && |path| <= MaxPath - 1)
    ensures |r| <= MaxPath - 1
    ensures deep > 0 ==> |r| > |path| && r[..|path| + 1] == path + [SLASH]
    ensures deep == 0 ==> |r| >= |path| && r[..|path|] == path
    ensures |path| + (if deep > 0 then 1 else 0) + |name| <= MaxPath - 1 ==>
      r == path + (if deep > 0 then [SLASH] else []) + name
  {
    var left := MaxPath - 1 - |path|;
    if deep > 0 then path + [SLASH] + Take(name, left - 1)
    else path + Take(name, left)
  }

  /** The copy count of the DIR case as fs.c computes it in size_t: the budget
      MaxPath - 1 - |path|, one less for the '/' when the path already has a
      component, wrapping below zero. */
  function AsWrittenLeft(pathLen: nat, deep: nat): (left: nat)
    requires pathLen <= MaxPath - 1
    ensures left < 0x1_0000_0000_0000_0000
    ensures deep == 0 ==> left == MaxPath - 1 - pathLen
    ensures deep > 0 && pathLen < MaxPath - 1 ==> left == MaxPath - 2 - pathLen
  {
    var left := MaxPath - pathLen - 1;
    if deep > 0 then (left - 1) % 0x1_0000_0000_0000_0000 else left
  }

  /** The UP case: cut the path at its last '/', or empty it when it has none. */
  function Pop(path: seq<Byte>): (r: seq<Byte>)
    ensures |r| <= |path| && r <= path
    ensures LastIndexOf(path, SLASH) < 0 ==> r == []
    ensures LastIndexOf(path, SLASH) >= 0 ==> r == path[..LastIndexOf(path, SLASH)]
  {
    var k := LastIndexOf(path, SLASH);
    if k < 0 then [] else path[..k]
  }

  /** What gemini_fs_resolve does with one DIR or UP token to the path and its
      depth counter. A component that finds the budget used up, with no room
      even for its '/', is dropped whole (see Findings). */
  function Step(path: seq<Byte>, deep: nat, t: Token): (r: (seq<Byte>, nat))
    requires |path| <= MaxPath - 1
    ensures |r.0| <= MaxPath - 1
  {
    match t
    case Up => if deep > 0 then (Pop(path), deep - 1) else (path, 0)
    case Dir(name) =>
      if deep > 0 && |path| == MaxPath - 1 then (path, deep) else (Append(path, deep, name), deep + 1)
    case _ => (path, deep)
  }

  /** gemini_fs_resolve's loop from index i, with the accumulated path and its
      depth counter. */
  function ResolveFrom(s: seq<Byte>, i: nat, path: seq<Byte>, deep: nat): Option<seq<Byte>>
    requires i <= |s| && |path| <= MaxPath - 1
    decreases |s| - i
  {
    var r := Lex(s, i);
    match r.0
    case Err => None
    case End => Some(path)
    case _ =>
      var next := Step(path, deep, r.0);
      ResolveFrom(s, r.1, next.0, next.1)
  }

  /** gemini_fs_resolve(file); None is NULL. */
  function Resolution(file: Option<seq<Byte>>): Option<seq<Byte>> {
    if file.None? then None else ResolveFrom(file.value, 0, [], 0)
  }

  // ---------------------------------------------------------------------------
  // The reference: split on '/', keep a stack of accepted components

  function FirstSlash(t: seq<Byte>): (k: int)
    ensures -1 <= k < |t|
    ensures k >= 0 ==> t[k] == '/' && NoSlash(t[..k])
    ensures k < 0 ==> NoSlash(t)
  {
    if t == [] then -1
    else if t[0] == '/' then 0
    else
      var k := FirstSlash(t[1..]);
      assert k >= 0 ==> t[1..][..k] == t[1..k + 1];
      if k < 0 then -1 else k + 1
  }

  /** The components of t between its '/'s, empty ones included. */
  function Split(t: seq<Byte>): (segs: seq<seq<Byte>>)
    ensures |segs| >= 1
    decreases |t|
  {
    var k := FirstSlash(t);
    if k < 0 then [t]
    else
      [t[..k]] + Split(t[k + 1..])
  }

  /** The components "." and "..". */
  predicate Dot(seg: seq<Byte>) { |seg| == 1 && seg[0] == '.' }

  predicate DotDot(seg: seq<Byte>) { |seg| == 2 && seg[0] == '.' && seg[1] == '.' }

  /** A component worth keeping. */
  predicate ValidName(seg: seq<Byte>) {
    seg != [] && !Dot(seg) && !DotDot(seg) && NoSlash(seg) && Clean(seg)
  }

  predicate ValidStack(stack: seq<seq<Byte>>) {
    forall k :: 0 <= k < |stack| ==> ValidName(stack[k])
  }

  /** One component against the stack: "" and "." do nothing, ".." pops unless
      the stack is empty, anything else is pushed. */
  function Apply(stack: seq<seq<Byte>>, seg: seq<Byte>): seq<seq<Byte>> {
    if seg == [] || Dot(seg) then stack
    else if DotDot(seg) then (if stack == [] then [] else stack[..|stack| - 1])
    else stack + [seg]
  }

  function Normalize(segs: seq<seq<Byte>>, stack: seq<seq<Byte>>): seq<seq<Byte>>
    decreases |segs|
  {
    if segs == [] then stack else Normalize(segs[1..], Apply(stack, segs[0]))
  }

  /** The components joined by single '/'s. */
  function Join(stack: seq<seq<Byte>>): seq<Byte> {
    if stack == [] then []
    else if |stack| == 1 then stack[0]
    else stack[0] + [SLASH] + Join(stack[1..])
  }

  /** A component the scanner accepts: no byte without a transition, and short
      enough for the component buffer. */
  predicate SegOk(seg: seq<Byte>) { Clean(seg) && |seg| < MaxPath }

  predicate AllOk(segs: seq<seq<Byte>>) {
    forall k :: 0 <= k < |segs| ==> SegOk(segs[k])
  }

  // ---------------------------------------------------------------------------
  // The resolver component by component

  /** What the resolver does with one component between '/'s: "" and "." leave
      the path alone, ".." is an UP token, anything else a DIR token. */
  function Feed(path: seq<Byte>, deep: nat, seg: seq<Byte>): (r: (seq<Byte>, nat))
    requires |path| <= MaxPath - 1
    ensures |r.0| <= MaxPath - 1
  {
    if seg == [] || Dot(seg) then (path, deep)
    else Step(path, deep, if DotDot(seg) then Up else Dir(seg))
  }

  /** The resolver over a list of components: NULL at the first one the scanner
      refuses, otherwise the path after the last one. */
  function ResolveSegs(segs: seq<seq<Byte>>, path: seq<Byte>, deep: nat): (r: Option<seq<Byte>>)
    requires |path| <= MaxPath - 1
    ensures r.Some? ==> |r.value| <= MaxPath - 1
    decreases |segs|
  {
    if segs == [] then Some(path)
    else if !SegOk(segs[0]) then None
    else
      var next := Feed(path, deep, segs[0]);
      ResolveSegs(segs[1..], next.0, next.1)
  }

  /** The resolver's path and depth agree: no path without a component, no
      leading '/', and one '/' between each two of the deep components. */
  predicate Shape(path: seq<Byte>, deep: nat) {
    if deep == 0 then path == []
    else path != [] && path[0] != SLASH && multiset(path)[SLASH] == deep - 1
  }

  // ---------------------------------------------------------------------------
  // gemini_fs_path

  /** The document root without its trailing '/'s. */
  function TrimSlashes(root: seq<Byte>): (r: seq<Byte>)
    ensures r <= root
    ensures r == [] || r[|r| - 1] != SLASH
    ensures forall k :: |r| <= k < |root| ==> root[k] == SLASH
  {
    if root == [] || root[|root| - 1] != SLASH then root
    else TrimSlashes(root[..|root| - 1])
  }

  /** gemini_fs_path: the root, one '/', the resolved file; NULL when the file
      does not resolve. */
  function RootPath(root: seq<Byte>, file: Option<seq<Byte>>): Option<seq<Byte>> {
    match Resolution(file)
    case None => None
    case Some(p) => Some(TrimSlashes(root) + [SLASH] + p)
  }
}
