/** url.c: the Gemini URL parser.

    gemini_parse_url_into scans a request line one byte per step through a
    finite-state machine. States 0 to 9 spell the literal "gemini://", state 10
    reads the host, state 11 an optional port and state 12 the path, which runs to
    the end of the input. The host and path are copied, each followed by a NUL,
    into the buffer at the end of the gemini_url struct.

    The input is the byte string before the C terminator. A NUL byte inside it is
    treated as a byte with no transition: C strings never contain one. */
module Url {
  import opened Bytes

  const DefaultPort := 1965
  const MaxPort := 0xffff
  const Scheme: seq<Byte> := "gemini://"

  // gemini_parse_url_into's error codes
  const ErrNoUrl := -91
  const ErrFull := -92
  const ErrByte := -93
  const ErrPort := -95

  predicate IsDigit(c: Byte) { '0' <= c <= '9' }

  /** The bytes a host may contain: letters, digits and '.'. */
  predicate HostChar(c: Byte) {
    ('a' <= c <= 'z') || ('A' <= c <= 'Z') || IsDigit(c) || c == '.'
  }

  function DigitValue(c: Byte): (v: nat)
    requires IsDigit(c)
    ensures v <= 9
  {
    c as int - '0' as int
  }

  /** The row of the transition table STATES for one state and byte (the table's
      source file is not part of this model; this is a reconstruction from the
      case labels of the scan and from the test vectors). -1 means no transition. */
  function Next(state: int, c: Byte): (to: int)
    ensures -1 <= to <= 12
    ensures to == 10 ==> (state == 9 || state == 10) && HostChar(c)
    ensures to == 11 ==> (state == 10 && c == ':') || (state == 11 && IsDigit(c))
    ensures to == 12 ==> (state == 10 && c == '/') || (state == 11 && c == '/') || (state == 12 && c != NUL)
    ensures 0 <= to <= 9 ==> 0 <= state < 9 && to == state + 1 && c == Scheme[state]
  {
    if 0 <= state < 9 then (if c == Scheme[state] then state + 1 else -1)
    else if state == 9 then (if HostChar(c) then 10 else -1)
    else if state == 10 then
      (if HostChar(c) then 10 else if c == ':' then 11 else if c == '/' then 12 else -1)
    else if state == 11 then (if IsDigit(c) then 11 else if c == '/' then 12 else -1)
    else if state == 12 then (if c != NUL then 12 else -1)
    else -1
  }

  /** The scan's variables after some prefix of the input: the state, the bytes
      written to url->buf so far (fill is |out|), the port accumulator, and the
      offsets that url->host and url->path were set to. */
  datatype Cfg = Cfg(state: int, out: seq<Byte>, port: int, host: nat, path: nat)

  datatype Outcome = Going(cfg: Cfg) | Halted(code: int)

  const Init := Cfg(0, [], DefaultPort, 0, 0)

  /** How many bytes one iteration of the scan writes into url->buf for the
      transition state -> to. The only guard, at the top of the iteration, checks
      for room for one byte. */
  function WriteCount(state: int, to: int): nat {
    var t := state * 100 + to;
    if t == 1012 then 2
    else if t == 910 || t == 1010 || t == 1011 || t == 1112 || t == 1212 then 1
    else 0
  }

  /** One iteration of the scan over byte c, for a buffer of len bytes. The second
      room check of the 10 -> 12 transition is not in url.c (see Findings). */
  function Step(cfg: Cfg, c: Byte, len: nat): Outcome {
    var fill := |cfg.out|;
    if fill >= len then Halted(ErrFull)
    else
      var to := Next(cfg.state, c);
      if to < 0 then Halted(ErrByte)
      else
        var t := cfg.state * 100 + to;
        if t == 910 then Going(Cfg(to, cfg.out + [c], cfg.port, fill, cfg.path))
        else if t == 1010 || t == 1212 then Going(cfg.(state := to, out := cfg.out + [c]))
        else if t == 1012 then
          if fill + 1 >= len then Halted(ErrFull)
          else Going(cfg.(state := to, out := cfg.out + [NUL, c], path := fill + 1))
        else if t == 1011 then Going(cfg.(state := to, out := cfg.out + [NUL], port := 0))
        else if t == 1112 then Going(cfg.(state := to, out := cfg.out + [c], path := fill))
        else if t == 1111 then
          var port := cfg.port * 10 + DigitValue(c);
          if port > MaxPort then Halted(ErrPort) else Going(cfg.(state := to, port := port))
        else Going(cfg.(state := to))
  }

  /** The scan of s from index i on. */
  function Run(s: seq<Byte>, i: nat, cfg: Cfg, len: nat): Outcome
    requires i <= |s|
    decreases |s| - i
  {
    if i == |s| then Going(cfg)
    else match Step(cfg, s[i], len)
      case Halted(code) => Halted(code)
      case Going(next) => Run(s, i + 1, next, len)
  }

  /** What the scan returns once the loop has stopped; the room check before the
      final NUL is not in url.c (see Findings). */
  function Finish(r: Outcome, len: nat): int {
    match r
    case Halted(code) => code
    case Going(cfg) =>
      if cfg.state == 12 then (if |cfg.out| >= len then ErrFull else 0)
      else -100 - cfg.state
  }

  /** gemini_parse_url_into(s, url) for a non-null url whose buffer has len bytes. */
  function ParseCode(s: seq<Byte>, len: nat): int {
    Finish(Run(s, 0, Init, len), len)
  }

  datatype UrlParts = UrlParts(host: seq<Byte>, port: int, path: seq<Byte>)

  /** The host, port and path a successful scan leaves in the url struct. */
  function Parse(s: seq<Byte>, len: nat): Option<UrlParts> {
    var r := Run(s, 0, Init, len);
    if r.Going? && Finish(r, len) == 0 && 1 <= r.cfg.path <= |r.cfg.out| then
      Some(UrlParts(r.cfg.out[..r.cfg.path - 1], r.cfg.port, r.cfg.out[r.cfg.path..]))
    else None
  }

  // ---------------------------------------------------------------------------
  // The grammar the scan recognises: gemini://<host>[:<digits>]<path>

  predicate HostName(h: seq<Byte>) {
    |h| >= 1 && forall i :: 0 <= i < |h| ==> HostChar(h[i])
  }

  predicate AllDigits(d: seq<Byte>) {
    forall i :: 0 <= i < |d| ==> IsDigit(d[i])
  }

  /** The decimal value of a digit string. */
  function Value(d: seq<Byte>): nat
    requires AllDigits(d)
  {
    if d == [] then 0 else Value(d[..|d| - 1]) * 10 + DigitValue(d[|d| - 1])
  }

  predicate IsPath(p: seq<Byte>) {
    |p| >= 1 && p[0] == '/' && NoNul(p)
  }

  /** The port part of a URL: absent, or ':' and the digits (possibly none). */
  function PortText(digits: Option<seq<Byte>>): seq<Byte> {
    if digits.None? then [] else [':'] + digits.value
  }

  predicate PortOk(digits: Option<seq<Byte>>) {
    digits.Some? ==> AllDigits(digits.value)
  }

  function PortOf(digits: Option<seq<Byte>>): nat
    requires PortOk(digits)
  {
    if digits.None? then DefaultPort else Value(digits.value)
  }

  /** s spells the URL with this host, port part and path. */
  predicate Spells(s: seq<Byte>, host: seq<Byte>, digits: Option<seq<Byte>>, path: seq<Byte>) {
    s == Scheme + host + PortText(digits) + path && HostName(host) && PortOk(digits) && IsPath(path)
  }

  // ---------------------------------------------------------------------------
  // The state the url struct is in

  /** struct gemini_url: host and path are offsets into buf, the flexible array
      of len bytes. */
  class GeminiUrl {
    var host: nat
    var port: int
    var path: nat
    const len: nat
    const buf: array<Byte>

    /** gemini_new_url(len); an allocation failure is not modelled. */
    constructor (len: nat)
      ensures this.len == len && buf.Length == len && fresh(buf)
    {
      this.len := len;
      buf := new Byte[len];
    }
  }

  /** One iteration of the scan in gemini_parse_url_into: byte c read in the given
      state, with fill bytes of url->buf written. A non-zero code is the value
      the scan returns at once. */
  method Advance(url: GeminiUrl, state: int, fill: nat, port: int, ghost host: nat, ghost path: nat, c: Byte)
    returns (code: int, state': int, fill': nat, port': int, ghost host': nat, ghost path': nat)
    requires url.buf.Length == url.len && fill <= url.len
    requires state >= 10 ==> url.host == host
    requires state == 12 ==> url.path == path
    modifies url, url.buf
    ensures fill' <= url.len && (code == 0 ==> 0 <= state' <= 12)
    ensures code != 0 ==> Step(Cfg(state, old(url.buf[..fill]), port, host, path), c, url.len) == Halted(code)
    ensures code == 0 ==>
      Step(Cfg(state, old(url.buf[..fill]), port, host, path), c, url.len) ==
      Going(Cfg(state', url.buf[..fill'], port', host', path'))
    ensures code == 0 && state' >= 10 ==> url.host == host'
    ensures code == 0 && state' == 12 ==> url.path == path'
  {
    code, state', fill', port', host', path' := 0, state, fill, port, host, path;
    var len := url.len;
    if fill >= len {
      return ErrFull, state', fill', port', host', path';
    }
    var to := Next(state, c);
    if to < 0 {
      return ErrByte, state', fill', port', host', path';
    }
    ghost var before := url.buf[..fill];
    var t := state * 100 + to;
    if t == 910 {
      url.host := fill;
      host' := fill;
      url.buf[fill] := c;
      fill' := fill + 1;
      assert url.buf[..fill'] == before + [c];
    } else if t == 1010 {
      url.buf[fill] := c;
      fill' := fill + 1;
      assert url.buf[..fill'] == before + [c];
    } else if t == 1012 {
      if fill + 1 >= len {
        return ErrFull, state', fill', port', host', path';
      }
      url.buf[fill] := NUL;
      url.path := fill + 1;
      path' := fill + 1;
      url.buf[fill + 1] := c;
      fill' := fill + 2;
      assert url.buf[..fill'] == before + [NUL, c];
    } else if t == 1011 {
      url.buf[fill] := NUL;
      fill' := fill + 1;
      port' := 0;
      assert url.buf[..fill'] == before + [NUL];
    } else if t == 1112 || t == 1212 {
      if t == 1112 {
        url.path := fill;
        path' := fill;
      }
      url.buf[fill] := c;
      fill' := fill + 1;
      assert url.buf[..fill'] == before + [c];
    } else if t == 1111 {
      port' := port * 10 + (c as int - '0' as int);
      if port' > MaxPort {
        return ErrPort, state', fill', port', host', path';
      }
    }
    state' := to;
  }

  /** gemini_parse_url_into, with the two room checks that url.c lacks. */
  method ParseInto(s: seq<Byte>, url: GeminiUrl?) returns (rc: int)
    requires url != null ==> url.buf.Length == url.len
    modifies if url == null then {} else {url, url.buf}
    ensures url == null ==> rc == ErrNoUrl
    ensures url != null ==> rc == ParseCode(s, url.len)
    ensures url != null && rc == 0 ==>
      Parse(s, url.len).Some? &&
      url.port == Parse(s, url.len).value.port &&
      HoldsCString(url.buf[..], url.host, Parse(s, url.len).value.host) &&
      HoldsCString(url.buf[..], url.path, Parse(s, url.len).value.path)
  {
    if url == null {
      return ErrNoUrl;
    }
    var len := url.len;
    var state, fill, port := 0, 0, DefaultPort;
    ghost var host, path := 0, 0;
    var i := 0;
    while i < |s|
      invariant 0 <= i <= |s| && fill <= len && 0 <= state <= 12
      invariant Run(s, 0, Init, len) == Run(s, i, Cfg(state, url.buf[..fill], port, host, path), len)
      invariant state >= 10 ==> url.host == host
      invariant state == 12 ==> url.path == path
    {
      ghost var cfg := Cfg(state, url.buf[..fill], port, host, path);
      var code;
      code, state, fill, port, host, path := Advance(url, state, fill, port, host, path, s[i]);
      if code != 0 {
        return code;
      }
      RunStep(s, i, cfg, len, Cfg(state, url.buf[..fill], port, host, path));
      i := i + 1;
    }
    url.port := port % 0x1_0000;
    if state == 12 {
      if fill >= len {
        return ErrFull;
      }
      ghost var written := url.buf[..fill];
      url.buf[fill] := NUL;
      assert url.buf[..fill] == written;
      ParsedLayout(s, len);
      return 0;
    } else {
      return -100 - state;
    }
  }

  /** gemini_parse_url as url.c has it: it allocates |s| + 1 bytes and returns the
      struct when the scan FAILS, and null when it succeeds (see Findings). */
  method ParseUrl(s: seq<Byte>) returns (url: GeminiUrl?)
    ensures url == null <==> ParseCode(s, |s| + 1) == 0
    ensures url != null ==> fresh(url) && url.len == |s| + 1
  {
    url := new GeminiUrl(|s| + 1);
    var rc := ParseInto(s, url);
    if rc != 0 {
      return url;
    }
    url := null;
  }

  /** gemini_parse_url with the test the other way round, as its caller expects:
      null exactly when s is not a valid URL. */
  method ParseUrlChecked(s: seq<Byte>) returns (url: GeminiUrl?)
    ensures url == null <==> Parse(s, |s| + 1).None?
    ensures url != null ==> fresh(url) && url.len == |s| + 1
    ensures url != null ==>
      HoldsCString(url.buf[..], url.host, Parse(s, |s| + 1).value.host) &&
      HoldsCString(url.buf[..], url.path, Parse(s, |s| + 1).value.path) &&
      url.port == Parse(s, |s| + 1).value.port
  {
    url := new GeminiUrl(|s| + 1);
    var rc := ParseInto(s, url);
    ParseDefined(s, |s| + 1);
    if rc == 0 {
      return url;
    }
    url := null;
  }

  // ---------------------------------------------------------------------------
  // Soundness: what a successful scan has read

  /** What the scan's variables say about the prefix t of the input read so far. */
  ghost predicate Consistent(t: seq<Byte>, cfg: Cfg) {
    if 0 <= cfg.state <= 9 then
      t == Scheme[..cfg.state] && cfg.out == [] && cfg.port == DefaultPort
    else if cfg.state == 10 then
      t == Scheme + cfg.out && HostName(cfg.out) && cfg.port == DefaultPort && cfg.host == 0
    else if cfg.state == 11 then
      |cfg.out| >= 2 && cfg.out[|cfg.out| - 1] == NUL && cfg.host == 0 &&
      HostName(cfg.out[..|cfg.out| - 1]) && cfg.port <= MaxPort &&
      exists d :: AllDigits(d) && t == Scheme + cfg.out[..|cfg.out| - 1] + [':'] + d && cfg.port == Value(d)
    else if cfg.state == 12 then
      2 <= cfg.path < |cfg.out| && cfg.out[cfg.path - 1] == NUL && cfg.host == 0 &&
      HostName(cfg.out[..cfg.path - 1]) && IsPath(cfg.out[cfg.path..]) && cfg.port <= MaxPort &&
      exists d :: PortOk(d) && t == Scheme + cfg.out[..cfg.path - 1] + PortText(d) + cfg.out[cfg.path..] &&
        cfg.port == PortOf(d)
    else false
  }

  lemma StepConsistent(t: seq<Byte>, cfg: Cfg, c: Byte, len: nat)
    requires Consistent(t, cfg) && Step(cfg, c, len).Going?
    ensures Consistent(t + [c], Step(cfg, c, len).cfg)
  {
    if cfg.state < 9 {
      assert Scheme[..cfg.state + 1] == Scheme[..cfg.state] + [c];
    } else if cfg.state == 9 {
      assert Scheme[..9] == Scheme;
    } else if cfg.state == 10 {
      StepHostConsistent(t, cfg, c, len);
    } else if cfg.state == 11 {
      StepPortConsistent(t, cfg, c, len);
    } else {
      StepPathConsistent(t, cfg, c, len);
    }
  }

  lemma StepHostConsistent(t: seq<Byte>, cfg: Cfg, c: Byte, len: nat)
    requires cfg.state == 10 && Consistent(t, cfg) && Step(cfg, c, len).Going?
    ensures Consistent(t + [c], Step(cfg, c, len).cfg)
  {
    var next := Step(cfg, c, len).cfg;
    if next.state == 11 {
      assert next.out[..|next.out| - 1] == cfg.out;
      assert AllDigits([]) && Value([]) == 0;
      assert t + [c] == Scheme + next.out[..|next.out| - 1] + [':'] + [];
    } else if next.state == 12 {
      assert next.out[..next.path - 1] == cfg.out;
      assert next.out[next.path..] == [c];
      assert t + [c] == Scheme + next.out[..next.path - 1] + PortText(None) + next.out[next.path..];
    }
  }

  lemma StepPortConsistent(t: seq<Byte>, cfg: Cfg, c: Byte, len: nat)
    requires cfg.state == 11 && Consistent(t, cfg) && Step(cfg, c, len).Going?
    ensures Consistent(t + [c], Step(cfg, c, len).cfg)
  {
    var h := cfg.out[..|cfg.out| - 1];
    var d :| AllDigits(d) && t == Scheme + h + [':'] + d && cfg.port == Value(d);
    if IsDigit(c) {
      StepDigit(cfg, c, len);
      PortDigitConsistent(t, cfg, c, h, d);
    } else {
      PortEndConsistent(t, cfg, c, len, h, d);
    }
  }

  /** A further port digit. */
  lemma PortDigitConsistent(t: seq<Byte>, cfg: Cfg, c: Byte, h: seq<Byte>, d: seq<Byte>)
    requires cfg.state == 11 && |cfg.out| >= 2 && cfg.out[|cfg.out| - 1] == NUL && cfg.host == 0
    requires h == cfg.out[..|cfg.out| - 1] && HostName(h)
    requires AllDigits(d) && t == Scheme + h + [':'] + d && cfg.port == Value(d)
    requires IsDigit(c) && cfg.port * 10 + DigitValue(c) <= MaxPort
    ensures Consistent(t + [c], cfg.(port := cfg.port * 10 + DigitValue(c)))
  {
    var d' := d + [c];
    assert d'[..|d'| - 1] == d && d'[|d'| - 1] == c;
    assert AllDigits(d');
    assert Value(d') == cfg.port * 10 + DigitValue(c);
    Regroup(Scheme + h + [':'], d, [c]);
    PortIntro(t + [c], cfg.(port := Value(d')), d');
  }

  /** A digit in the port part scales the port up by ten. */
  lemma StepDigit(cfg: Cfg, c: Byte, len: nat)
    requires cfg.state == 11 && IsDigit(c) && Step(cfg, c, len).Going?
    ensures cfg.port * 10 + DigitValue(c) <= MaxPort
    ensures Step(cfg, c, len) == Going(cfg.(port := cfg.port * 10 + DigitValue(c)))
  {
    assert Next(11, c) == 11;
  }

  /** A digit that keeps the port in range scales it up by ten. */
  lemma DigitStep(cfg: Cfg, c: Byte, len: nat)
    requires cfg.state == 11 && IsDigit(c) && |cfg.out| < len && cfg.port * 10 + DigitValue(c) <= MaxPort
    ensures Step(cfg, c, len) == Going(cfg.(port := cfg.port * 10 + DigitValue(c)))
  {
    assert Next(11, c) == 11;
  }

  /** The state-11 case of Consistent, from its witness. */
  lemma PortIntro(t: seq<Byte>, cfg: Cfg, d: seq<Byte>)
    requires cfg.state == 11 && |cfg.out| >= 2 && cfg.out[|cfg.out| - 1] == NUL && cfg.host == 0
    requires HostName(cfg.out[..|cfg.out| - 1])
    requires AllDigits(d) && t == Scheme + cfg.out[..|cfg.out| - 1] + [':'] + d
    requires cfg.port == Value(d) && cfg.port <= MaxPort
    ensures Consistent(t, cfg)
  {
  }

  /** The '/' that ends the port and begins the path. */
  lemma PortEndConsistent(t: seq<Byte>, cfg: Cfg, c: Byte, len: nat, h: seq<Byte>, d: seq<Byte>)
    requires cfg.state == 11 && Consistent(t, cfg) && Step(cfg, c, len).Going? && !IsDigit(c)
    requires h == cfg.out[..|cfg.out| - 1] && AllDigits(d) && t == Scheme + h + [':'] + d && cfg.port == Value(d)
    ensures Consistent(t + [c], Step(cfg, c, len).cfg)
  {
    var next := Step(cfg, c, len).cfg;
    assert next == cfg.(state := 12, out := cfg.out + [c], path := |cfg.out|);
    assert next.out[..next.path - 1] == h;
    assert next.out[next.path..] == [c];
    Regroup(Scheme + h, [':'], d);
    assert t + [c] == Scheme + next.out[..next.path - 1] + PortText(Some(d)) + next.out[next.path..];
  }

  lemma StepPathConsistent(t: seq<Byte>, cfg: Cfg, c: Byte, len: nat)
    requires cfg.state == 12 && Consistent(t, cfg) && Step(cfg, c, len).Going?
    ensures Consistent(t + [c], Step(cfg, c, len).cfg)
  {
    var h := cfg.out[..cfg.path - 1];
    var p := cfg.out[cfg.path..];
    var d :| PortOk(d) && t == Scheme + h + PortText(d) + p && cfg.port == PortOf(d);
    PathByteConsistent(t, cfg, c, len, h, p, d);
  }

  /** A further path byte. */
  lemma PathByteConsistent(t: seq<Byte>, cfg: Cfg, c: Byte, len: nat, h: seq<Byte>, p: seq<Byte>,
                           d: Option<seq<Byte>>)
    requires cfg.state == 12 && 2 <= cfg.path < |cfg.out| && cfg.out[cfg.path - 1] == NUL && cfg.host == 0
    requires h == cfg.out[..cfg.path - 1] && HostName(h) && p == cfg.out[cfg.path..] && IsPath(p)
    requires PortOk(d) && t == Scheme + h + PortText(d) + p && cfg.port == PortOf(d) && cfg.port <= MaxPort
    requires Step(cfg, c, len).Going?
    ensures Consistent(t + [c], Step(cfg, c, len).cfg)
  {
    var next := cfg.(out := cfg.out + [c]);
    assert Step(cfg, c, len) == Going(next);
    assert next.out[..next.path - 1] == h;
    assert next.out[next.path..] == p + [c];
    Regroup(Scheme + h + PortText(d), p, [c]);
    PathIntro(t + [c], next, d);
  }

  /** The state-12 case of Consistent, from its witness. */
  lemma PathIntro(t: seq<Byte>, cfg: Cfg, d: Option<seq<Byte>>)
    requires cfg.state == 12 && 2 <= cfg.path < |cfg.out| && cfg.out[cfg.path - 1] == NUL && cfg.host == 0
    requires HostName(cfg.out[..cfg.path - 1]) && IsPath(cfg.out[cfg.path..])
    requires PortOk(d) && t == Scheme + cfg.out[..cfg.path - 1] + PortText(d) + cfg.out[cfg.path..]
    requires cfg.port == PortOf(d) && cfg.port <= MaxPort
    ensures Consistent(t, cfg)
  {
  }

  lemma {:induction false} RunConsistent(s: seq<Byte>, i: nat, cfg: Cfg, len: nat)
    requires i <= |s| && Consistent(s[..i], cfg)
    ensures Run(s, i, cfg, len).Going? ==> Consistent(s, Run(s, i, cfg, len).cfg)
    decreases |s| - i
  {
    if i == |s| {
      SliceAll(s, i);
    } else {
      var st := Step(cfg, s[i], len);
      if st.Going? {
        StepOn(s, i, cfg, len);
        RunStep(s, i, cfg, len, st.cfg);
        RunConsistent(s, i + 1, st.cfg, len);
      }
    }
  }

  /** One more byte of the input read, consistently. */
  lemma StepOn(s: seq<Byte>, i: nat, cfg: Cfg, len: nat)
    requires i < |s| && Consistent(s[..i], cfg) && Step(cfg, s[i], len).Going?
    ensures Consistent(s[..i + 1], Step(cfg, s[i], len).cfg)
  {
    StepConsistent(s[..i], cfg, s[i], len);
    SliceSnoc(s, i);
  }

  /** The scan halts early only with one of the three codes of its loop. */
  lemma {:induction false} RunHaltCodes(s: seq<Byte>, i: nat, cfg: Cfg, len: nat)
    requires i <= |s|
    ensures Run(s, i, cfg, len).Halted? ==> Run(s, i, cfg, len).code in {ErrFull, ErrByte, ErrPort}
    decreases |s| - i
  {
    if i < |s| && Step(cfg, s[i], len).Going? {
      RunHaltCodes(s, i + 1, Step(cfg, s[i], len).cfg, len);
    }
  }

  /** Where a scan that ends in the path state has put the host and the path. */
  lemma ParsedLayout(s: seq<Byte>, len: nat)
    requires Run(s, 0, Init, len).Going? && Run(s, 0, Init, len).cfg.state == 12
    ensures var c := Run(s, 0, Init, len).cfg;
      c.host == 0 && 2 <= c.path < |c.out| && c.out[c.path - 1] == NUL &&
      NoNul(c.out[..c.path - 1]) && NoNul(c.out[c.path..]) && 0 <= c.port <= MaxPort
  {
    RunConsistent(s, 0, Init, len);
    var r := Run(s, 0, Init, len);
    assert Consistent(s, r.cfg);
    PathStateLayout(s, r.cfg);
  }

  /** What Consistent says of the buffer once the path has begun. */
  lemma PathStateLayout(t: seq<Byte>, c: Cfg)
    requires c.state == 12 && Consistent(t, c)
    ensures c.host == 0 && 2 <= c.path < |c.out| && c.out[c.path - 1] == NUL
    ensures NoNul(c.out[..c.path - 1]) && NoNul(c.out[c.path..]) && 0 <= c.port <= MaxPort
  {
  }

  /** The url struct holds a host and a path exactly when the scan returned 0. */
  lemma ParseDefined(s: seq<Byte>, len: nat)
    ensures Parse(s, len).Some? <==> ParseCode(s, len) == 0
  {
    RunHaltCodes(s, 0, Init, len);
    RunConsistent(s, 0, Init, len);
    if ParseCode(s, len) == 0 {
      ParsedLayout(s, len);
    }
  }

  /** Every code the scan returns: 0, one of the loop's errors, or -100 - state
      for an input that ends before the path. */
  lemma ParseCodes(s: seq<Byte>, len: nat)
    ensures var rc := ParseCode(s, len);
      rc in {0, ErrFull, ErrByte, ErrPort} || -111 <= rc <= -100
  {
    RunHaltCodes(s, 0, Init, len);
    RunConsistent(s, 0, Init, len);
  }

  /** A URL that parses spells gemini://host[:digits]path, with the port the
      digits give (or the default port) and never above 65535. */
  lemma ParseSound(s: seq<Byte>, len: nat)
    requires ParseCode(s, len) == 0
    ensures Parse(s, len).Some?
    ensures var u := Parse(s, len).value;
      0 <= u.port <= MaxPort && exists d :: Spells(s, u.host, d, u.path) && PortOf(d) == u.port
  {
    ParseDefined(s, len);
    RunHaltCodes(s, 0, Init, len);
    RunConsistent(s, 0, Init, len);
    var r := Run(s, 0, Init, len);
    assert r.Going? && r.cfg.state == 12;
    PathStateSound(s, r.cfg);
  }

  /** What Consistent says of the input once the path has begun. */
  lemma PathStateSound(t: seq<Byte>, c: Cfg)
    requires c.state == 12 && Consistent(t, c)
    ensures 0 <= c.port <= MaxPort
    ensures exists d :: Spells(t, c.out[..c.path - 1], d, c.out[c.path..]) && PortOf(d) == c.port
  {
    var d :| PortOk(d) && t == Scheme + c.out[..c.path - 1] + PortText(d) + c.out[c.path..] && c.port == PortOf(d);
    assert Spells(t, c.out[..c.path - 1], d, c.out[c.path..]);
  }

  // ---------------------------------------------------------------------------
  // Completeness: the scan of a URL, phase by phase

  lemma {:induction false} RunScheme(s: seq<Byte>, k: nat, len: nat)
    requires 9 <= |s| && s[..9] == Scheme && k <= 9 && len >= 1
    ensures Run(s, k, Cfg(k, [], DefaultPort, 0, 0), len) == Run(s, 9, Cfg(9, [], DefaultPort, 0, 0), len)
    decreases 9 - k
  {
    if k < 9 {
      assert s[k] == s[..9][k];
      assert Step(Cfg(k, [], DefaultPort, 0, 0), s[k], len) == Going(Cfg(k + 1, [], DefaultPort, 0, 0));
      RunScheme(s, k + 1, len);
    }
  }

  lemma {:induction false} RunHost(s: seq<Byte>, k: nat, j: nat, len: nat)
    requires 10 <= k <= j <= |s| && len >= j - 9
    requires forall m :: 9 <= m < j ==> HostChar(s[m])
    ensures Run(s, k, Cfg(10, s[9..k], DefaultPort, 0, 0), len) == Run(s, j, Cfg(10, s[9..j], DefaultPort, 0, 0), len)
    decreases j - k
  {
    if k < j {
      assert s[9..k] + [s[k]] == s[9..k + 1];
      assert Step(Cfg(10, s[9..k], DefaultPort, 0, 0), s[k], len) == Going(Cfg(10, s[9..k + 1], DefaultPort, 0, 0));
      RunHost(s, k + 1, j, len);
    }
  }

  /** The scheme and then a host of j - 9 bytes. */
  lemma RunToHost(s: seq<Byte>, j: nat, len: nat)
    requires 10 <= j <= |s| && s[..9] == Scheme && len >= j - 9
    requires forall m :: 9 <= m < j ==> HostChar(s[m])
    ensures Run(s, 0, Init, len) == Run(s, j, Cfg(10, s[9..j], DefaultPort, 0, 0), len)
  {
    RunScheme(s, 0, len);
    assert s[9..10] == [s[9]];
    assert Step(Cfg(9, [], DefaultPort, 0, 0), s[9], len) == Going(Cfg(10, s[9..10], DefaultPort, 0, 0));
    RunHost(s, 10, j, len);
  }

  lemma {:induction false} ValuePrefix(d: seq<Byte>, k: nat)
    requires AllDigits(d) && k <= |d|
    ensures Value(d[..k]) <= Value(d)
    decreases |d|
  {
    if k < |d| {
      var e := d[..|d| - 1];
      assert e[..k] == d[..k];
      ValuePrefix(e, k);
    } else {
      assert d[..k] == d;
    }
  }

  /** The port digits s[j + 1 .. m], after the ':' at j. */
  lemma {:induction false} RunPort(s: seq<Byte>, j: nat, k: nat, m: nat, out: seq<Byte>, len: nat)
    requires j < k <= m <= |s| && |out| < len
    requires forall q :: j < q < m ==> IsDigit(s[q])
    requires Value(s[j + 1..m]) <= MaxPort
    ensures Run(s, k, Cfg(11, out, Value(s[j + 1..k]), 0, 0), len) == Run(s, m, Cfg(11, out, Value(s[j + 1..m]), 0, 0), len)
    decreases m - k
  {
    if k < m {
      var e := s[j + 1..k + 1];
      assert e[..|e| - 1] == s[j + 1..k];
      assert s[j + 1..m][..k + 1 - (j + 1)] == e;
      assert e[|e| - 1] == s[k];
      ValuePrefix(s[j + 1..m], k + 1 - (j + 1));
      var cfg := Cfg(11, out, Value(s[j + 1..k]), 0, 0);
      DigitStep(cfg, s[k], len);
      assert Value(e) == cfg.port * 10 + DigitValue(s[k]);
      RunStep(s, k, cfg, len, cfg.(port := Value(e)));
      RunPort(s, j, k + 1, m, out, len);
    }
  }

  /** The path s[q ..], copied after the prefix pre. */
  lemma {:induction false} RunPath(s: seq<Byte>, q: nat, k: nat, pre: seq<Byte>, port: int, path: nat, len: nat)
    requires q <= k <= |s| && |pre| + (|s| - q) <= len
    requires forall m :: k <= m < |s| ==> s[m] != NUL
    ensures Run(s, k, Cfg(12, pre + s[q..k], port, 0, path), len) == Going(Cfg(12, pre + s[q..], port, 0, path))
    decreases |s| - k
  {
    if k == |s| {
      assert s[q..k] == s[q..];
    } else {
      assert pre + s[q..k] + [s[k]] == pre + s[q..k + 1];
      assert Step(Cfg(12, pre + s[q..k], port, 0, path), s[k], len) == Going(Cfg(12, pre + s[q..k + 1], port, 0, path));
      RunPath(s, q, k + 1, pre, port, path, len);
    }
  }

  /** The scheme and host of s == Scheme + host + rest. */
  lemma ReadHost(s: seq<Byte>, host: seq<Byte>, rest: seq<Byte>, len: nat)
    requires s == Scheme + host + rest && HostName(host) && len >= |host|
    ensures Run(s, 0, Init, len) == Run(s, 9 + |host|, Cfg(10, host, DefaultPort, 0, 0), len)
  {
    var j := 9 + |host|;
    assert s[..9] == Scheme;
    assert s[9..j] == host;
    forall m | 9 <= m < j ensures HostChar(s[m]) {
      assert s[m] == host[m - 9];
    }
    RunToHost(s, j, len);
  }

  /** The digits d that follow the ':' at index j. */
  lemma ReadPort(s: seq<Byte>, j: nat, d: seq<Byte>, out: seq<Byte>, len: nat)
    requires j + 1 + |d| <= |s| && s[j + 1..j + 1 + |d|] == d
    requires AllDigits(d) && Value(d) <= MaxPort && |out| < len
    ensures Run(s, j + 1, Cfg(11, out, 0, 0, 0), len) == Run(s, j + 1 + |d|, Cfg(11, out, Value(d), 0, 0), len)
  {
    var q := j + 1 + |d|;
    forall m | j < m < q ensures IsDigit(s[m]) {
      assert s[m] == d[m - j - 1];
    }
    assert Value(s[j + 1..j + 1]) == 0;
    RunPort(s, j, j + 1, q, out, len);
  }

  /** The path, from its '/' at index q to the end of s. */
  lemma ReadPath(s: seq<Byte>, q: nat, path: seq<Byte>, pre: seq<Byte>, port: int, off: nat, len: nat)
    requires q <= |s| && s[q..] == path && IsPath(path) && |pre| + |path| <= len
    ensures Run(s, q + 1, Cfg(12, pre + ['/'], port, 0, off), len) == Going(Cfg(12, pre + path, port, 0, off))
  {
    assert s[q..q + 1] == ['/'];
    forall m | q + 1 <= m < |s| ensures s[m] != NUL {
      assert s[m] == path[m - q];
    }
    RunPath(s, q, q + 1, pre, port, off, len);
  }

  lemma RunNoPort(s: seq<Byte>, host: seq<Byte>, path: seq<Byte>, len: nat)
    requires Spells(s, host, None, path) && len >= |host| + |path| + 2
    ensures Run(s, 0, Init, len) == Going(Cfg(12, host + [NUL] + path, DefaultPort, 0, |host| + 1))
  {
    var j := 9 + |host|;
    assert s == Scheme + host + path;
    ReadHost(s, host, path, len);
    assert s[j..] == path;
    assert Step(Cfg(10, host, DefaultPort, 0, 0), s[j], len) == Going(Cfg(12, host + [NUL] + ['/'], DefaultPort, 0, |host| + 1));
    ReadPath(s, j, path, host + [NUL], DefaultPort, |host| + 1, len);
  }

  lemma RunWithPort(s: seq<Byte>, host: seq<Byte>, d: seq<Byte>, path: seq<Byte>, len: nat)
    requires Spells(s, host, Some(d), path) && Value(d) <= MaxPort && len >= |host| + |path| + 2
    ensures Run(s, 0, Init, len) == Going(Cfg(12, host + [NUL] + path, Value(d), 0, |host| + 1))
  {
    PortLayout(s, host, d, path);
    ReadHost(s, host, [':'] + d + path, len);
    ReadPortPath(s, host, d, path, len);
  }

  /** The port d and the path that follow the host. */
  lemma ReadPortPath(s: seq<Byte>, host: seq<Byte>, d: seq<Byte>, path: seq<Byte>, len: nat)
    requires 9 + |host| + 1 + |d| <= |s| && s[9 + |host|] == ':'
    requires s[9 + |host| + 1..9 + |host| + 1 + |d|] == d && s[9 + |host| + 1 + |d|..] == path
    requires AllDigits(d) && Value(d) <= MaxPort && IsPath(path) && len >= |host| + |path| + 2
    ensures Run(s, 9 + |host|, Cfg(10, host, DefaultPort, 0, 0), len)
         == Going(Cfg(12, host + [NUL] + path, Value(d), 0, |host| + 1))
  {
    var j := 9 + |host|;
    var q := j + 1 + |d|;
    var pre := host + [NUL];
    RunStep(s, j, Cfg(10, host, DefaultPort, 0, 0), len, Cfg(11, pre, 0, 0, 0));
    ReadPort(s, j, d, pre, len);
    assert s[q] == path[0];
    RunStep(s, q, Cfg(11, pre, Value(d), 0, 0), len, Cfg(12, pre + ['/'], Value(d), 0, |host| + 1));
    ReadPath(s, q, path, pre, Value(d), |host| + 1, len);
  }

  /** Where the parts of gemini://host:d path sit. */
  lemma PortLayout(s: seq<Byte>, host: seq<Byte>, d: seq<Byte>, path: seq<Byte>)
    requires s == Scheme + host + PortText(Some(d)) + path
    ensures var j := 9 + |host|;
      && j + 1 + |d| <= |s|
      && s == Scheme + host + ([':'] + d + path)
      && s[j] == ':' && s[j + 1..j + 1 + |d|] == d && s[j + 1 + |d|..] == path
  {
    var j := 9 + |host|;
    var rest := [':'] + d + path;
    assert s == Scheme + host + rest;
    assert s[j..] == rest;
    assert rest[1..1 + |d|] == d && rest[1 + |d|..] == path;
  }

  /** One step of the scan that keeps it going. */
  lemma RunStep(s: seq<Byte>, i: nat, cfg: Cfg, len: nat, next: Cfg)
    requires i < |s| && Step(cfg, s[i], len) == Going(next)
    ensures Run(s, i, cfg, len) == Run(s, i + 1, next, len)
  {
  }

  /** Every URL of the grammar parses, into its own host, port and path, when the
      buffer has room for the host, the path and their two NULs. */
  lemma ParseComplete(s: seq<Byte>, host: seq<Byte>, digits: Option<seq<Byte>>, path: seq<Byte>, len: nat)
    requires Spells(s, host, digits, path) && PortOf(digits) <= MaxPort
    requires len >= |host| + |path| + 2
    ensures ParseCode(s, len) == 0
    ensures Parse(s, len) == Some(UrlParts(host, PortOf(digits), path))
  {
    if digits.None? {
      RunNoPort(s, host, path, len);
    } else {
      RunWithPort(s, host, digits.value, path, len);
    }
    var out := host + [NUL] + path;
    assert out[..|host|] == host;
    assert out[|host| + 1..] == path;
  }

  /** A port above 65535 is refused as soon as its digits pass the limit,
      whatever follows them. */
  lemma PortOverflow(s: seq<Byte>, host: seq<Byte>, d: seq<Byte>, rest: seq<Byte>, len: nat)
    requires s == Scheme + host + [':'] + d + rest
    requires HostName(host) && AllDigits(d) && Value(d) > MaxPort
    requires len >= |host| + 2
    ensures ParseCode(s, len) == ErrPort
  {
    var j := 9 + |host|;
    var pre := host + [NUL];
    var tail := [':'] + d + rest;
    assert s == Scheme + host + tail;
    assert s[j..] == tail;
    assert tail[1..1 + |d|] == d;
    ReadHost(s, host, tail, len);
    RunStep(s, j, Cfg(10, host, DefaultPort, 0, 0), len, Cfg(11, pre, 0, 0, 0));
    PortHalts(s, j, d, pre, len);
  }

  lemma PortHalts(s: seq<Byte>, j: nat, d: seq<Byte>, out: seq<Byte>, len: nat)
    requires j + 1 + |d| <= |s| && s[j + 1..j + 1 + |d|] == d
    requires AllDigits(d) && Value(d) > MaxPort && |out| < len
    ensures Run(s, j + 1, Cfg(11, out, 0, 0, 0), len) == Halted(ErrPort)
  {
    var k := FirstOverflow(d);
    var e := d[..k - 1];
    assert s[j + 1..j + k] == e;
    ReadPort(s, j, e, out, len);
    assert d[..k][..k - 1] == e;
    assert s[j + k] == d[k - 1];
    assert Step(Cfg(11, out, Value(e), 0, 0), s[j + k], len) == Halted(ErrPort);
  }

  /** The first prefix of d whose value passes the port limit. */
  lemma {:induction false} FirstOverflow(d: seq<Byte>) returns (k: nat)
    requires AllDigits(d) && Value(d) > MaxPort
    ensures 1 <= k <= |d| && Value(d[..k]) > MaxPort && Value(d[..k - 1]) <= MaxPort
    decreases |d|
  {
    var e := d[..|d| - 1];
    if Value(e) > MaxPort {
      k := FirstOverflow(e);
      assert e[..k] == d[..k] && e[..k - 1] == d[..k - 1];
    } else {
      k := |d|;
      assert d[..k] == d;
    }
  }

  // ---------------------------------------------------------------------------
  // Rejections

  /** A host with no path: the scan stops in state 10 and returns -110. */
  lemma MissingPath(host: seq<Byte>, len: nat)
    requires HostName(host) && len >= |host|
    ensures ParseCode(Scheme + host, len) == -110
  {
    var s := Scheme + host;
    assert s[..9] == Scheme && s[9..] == host;
    forall m | 9 <= m < |s| ensures HostChar(s[m]) {
      assert s[m] == host[m - 9];
    }
    RunToHost(s, |s|, len);
  }

  /** A byte that may not start a host, or that may not follow host bytes. */
  lemma BadHostByte(host: seq<Byte>, c: Byte, rest: seq<Byte>, len: nat)
    requires host == [] || HostName(host)
    requires !HostChar(c) && (host != [] ==> c != ':' && c != '/')
    requires len > |host|
    ensures ParseCode(Scheme + host + [c] + rest, len) == ErrByte
  {
    var s := Scheme + host + [c] + rest;
    var j := 9 + |host|;
    assert s[..9] == Scheme;
    assert s[j] == c;
    if host == [] {
      RunScheme(s, 0, len);
    } else {
      assert s[9..j] == host;
      forall m | 9 <= m < j ensures HostChar(s[m]) {
        assert s[m] == host[m - 9];
      }
      RunToHost(s, j, len);
    }
  }

  /** A byte after the port digits that is neither a digit nor '/'. */
  lemma BadPortByte(host: seq<Byte>, d: seq<Byte>, c: Byte, rest: seq<Byte>, len: nat)
    requires HostName(host) && AllDigits(d) && Value(d) <= MaxPort
    requires !IsDigit(c) && c != '/'
    requires len > |host| + 1
    ensures ParseCode(Scheme + host + [':'] + d + [c] + rest, len) == ErrByte
  {
    var s := Scheme + host + [':'] + d + [c] + rest;
    var j := 9 + |host|;
    var pre := host + [NUL];
    var tail := [c] + rest;
    assert s == Scheme + host + PortText(Some(d)) + tail;
    PortLayout(s, host, d, tail);
    ReadHost(s, host, [':'] + d + tail, len);
    RunStep(s, j, Cfg(10, host, DefaultPort, 0, 0), len, Cfg(11, pre, 0, 0, 0));
    ReadPort(s, j, d, pre, len);
    ByteHalts(s, j + 1 + |d|, Cfg(11, pre, Value(d), 0, 0), len);
  }

  /** A byte the port state has no transition for stops the scan. */
  lemma ByteHalts(s: seq<Byte>, q: nat, cfg: Cfg, len: nat)
    requires q < |s| && cfg.state == 11 && |cfg.out| < len && !IsDigit(s[q]) && s[q] != '/'
    ensures Run(s, q, cfg, len) == Halted(ErrByte)
  {
    assert Next(11, s[q]) < 0;
  }

  /** A first byte that does not begin "gemini://". */
  lemma WrongScheme(s: seq<Byte>, len: nat)
    requires |s| >= 1 && s[0] != 'g' && len >= 1
    ensures ParseCode(s, len) == ErrByte
  {
  }

  // ---------------------------------------------------------------------------
  // Room in the buffer

  /** The bytes written lag the bytes read by the scheme's nine bytes (eight once
      the path has begun, for the NUL after the host). */
  ghost predicate Room(i: nat, cfg: Cfg) {
    0 <= cfg.state <= 12 &&
    (0 <= cfg.state <= 9 ==> cfg.out == [] && cfg.state <= i) &&
    (cfg.state == 10 || cfg.state == 11 ==> |cfg.out| + 9 <= i) &&
    (cfg.state == 12 ==> |cfg.out| + 8 <= i)
  }

  lemma {:induction false} RunRoom(s: seq<Byte>, i: nat, cfg: Cfg, len: nat)
    requires i <= |s| < len && Room(i, cfg)
    ensures Run(s, i, cfg, len) != Halted(ErrFull)
    ensures Run(s, i, cfg, len).Going? ==>
      |Run(s, i, cfg, len).cfg.out| < len && 0 <= Run(s, i, cfg, len).cfg.state <= 12
    decreases |s| - i
  {
    if i < |s| {
      var st := Step(cfg, s[i], len);
      if st.Going? {
        assert Room(i + 1, st.cfg);
        RunRoom(s, i + 1, st.cfg, len);
      }
    }
  }

  /** A buffer one byte longer than the input, as gemini_parse_url allocates, is
      never too small: the two room checks url.c lacks never fire there. */
  lemma RoomSuffices(s: seq<Byte>, len: nat)
    requires len > |s|
    ensures ParseCode(s, len) != ErrFull
  {
    RunRoom(s, 0, Init, len);
  }

  /** Each iteration of the scan writes WriteCount bytes, and, with the added
      checks, never past the end of the buffer. */
  lemma StepWrites(cfg: Cfg, c: Byte, len: nat)
    requires Step(cfg, c, len).Going?
    ensures |Step(cfg, c, len).cfg.out| == |cfg.out| + WriteCount(cfg.state, Next(cfg.state, c))
    ensures |Step(cfg, c, len).cfg.out| <= len
  {
  }

  /** url.c checks for room for one byte per iteration, but the 10 -> 12
      iteration writes two; and it writes the final NUL with no check at all. */
  lemma AsWrittenOverrun()
    ensures var r := Run("gemini://x", 0, Init, 2);
      r.Going? && r.cfg.state == 10 && |r.cfg.out| < 2 &&
      |r.cfg.out| + WriteCount(10, Next(10, '/')) > 2
    ensures var r := Run("gemini://x/", 0, Init, 3);
      r.Going? && r.cfg.state == 12 && |r.cfg.out| == 3
  {
    var s: seq<Byte> := "gemini://x";
    assert s == Scheme + "x" + [];
    ReadHost(s, "x", [], 2);
    var t: seq<Byte> := "gemini://x/";
    assert t == Scheme + "x" + "/";
    ReadHost(t, "x", "/", 3);
    assert Step(Cfg(10, "x", DefaultPort, 0, 0), t[10], 3) == Going(Cfg(12, "x" + [NUL, '/'], DefaultPort, 0, 2));
  }

  // ---------------------------------------------------------------------------
  // The test vectors of tests.c, in its buffer of 8192 bytes

  lemma EmptyRejected()
    ensures ParseCode("", 8192) == -100
  {
  }

  lemma HttpRejected()
    ensures ParseCode("http://huntprod.com", 8192) == ErrByte
  {
    WrongScheme("http://huntprod.com", 8192);
  }

  lemma MissingPathRejected()
    ensures ParseCode("gemini://just.a.host", 8192) == -110
  {
    MissingPath("just.a.host", 8192);
    assert Scheme + "just.a.host" == "gemini://just.a.host";
  }

  lemma BangRejected()
    ensures ParseCode("gemini://host!/", 8192) == ErrByte
  {
    BadHostByte("host", '!', "/", 8192);
    assert Scheme + "host" + ['!'] + "/" == "gemini://host!/";
  }

  lemma DashRejected()
    ensures ParseCode("gemini://--the-host--/", 8192) == ErrByte
  {
    BadHostByte([], '-', "-the-host--/", 8192);
    assert Scheme + [] + ['-'] + "-the-host--/" == "gemini://--the-host--/";
  }

  lemma WordPortRejected()
    ensures ParseCode("gemini://host:gemini/", 8192) == ErrByte
  {
    assert Value([]) == 0;
    BadPortByte("host", [], 'g', "emini/", 8192);
    assert Scheme + "host" + [':'] + [] + ['g'] + "emini/" == "gemini://host:gemini/";
  }

  lemma MixedPortRejected()
    ensures ParseCode("gemini://host:19sixty5/", 8192) == ErrByte
  {
    assert Value("19") == 19 by {
      assert "19"[..1] == "1";
    }
    BadPortByte("host", "19", 's', "ixty5/", 8192);
    assert Scheme + "host" + [':'] + "19" + ['s'] + "ixty5/" == "gemini://host:19sixty5/";
  }

  /** A port past 65535 is refused even when no path follows it. */
  lemma UnendedPortOverflow()
    ensures ParseCode("gemini://h:99999", 8192) == ErrPort
  {
    var d: seq<Byte> := "99999";
    assert AllDigits(d);
    assert Value("9") == 9 by { assert "9"[..0] == []; }
    assert Value("99") == 99 by { assert "99"[..1] == "9"; }
    assert Value("999") == 999 by { assert "999"[..2] == "99"; }
    assert Value("9999") == 9999 by { assert "9999"[..3] == "999"; }
    assert Value(d) == 99999 by { assert d[..4] == "9999"; }
    assert "gemini://h:99999" == Scheme + "h" + [':'] + d + [];
    PortOverflow("gemini://h:99999", "h", d, [], 8192);
  }

  lemma BaseAccepted()
    ensures Parse("gemini://x/", 8192) == Some(UrlParts("x", DefaultPort, "/"))
  {
    ParseComplete("gemini://x/", "x", None, "/", 8192);
  }

  lemma DottedAccepted()
    ensures Parse("gemini://huntprod.com/", 8192) == Some(UrlParts("huntprod.com", DefaultPort, "/"))
  {
    ParseComplete("gemini://huntprod.com/", "huntprod.com", None, "/", 8192);
  }

  lemma AddressAccepted()
    ensures Parse("gemini://192.168.88.100/", 8192) == Some(UrlParts("192.168.88.100", DefaultPort, "/"))
  {
    ParseComplete("gemini://192.168.88.100/", "192.168.88.100", None, "/", 8192);
  }

  lemma PortAccepted()
    ensures Parse("gemini://host:2021/", 8192) == Some(UrlParts("host", 2021, "/"))
  {
    assert Value("2021") == 2021 by {
      assert "2021"[..3] == "202";
      assert "202"[..2] == "20";
      assert "20"[..1] == "2";
    }
    ParseComplete("gemini://host:2021/", "host", Some("2021"), "/", 8192);
  }

  lemma LongPathAccepted(s: seq<Byte>, host: seq<Byte>, path: seq<Byte>)
    requires s == "gemini://host/a/path/for/testing" && host == "host" && path == "/a/path/for/testing"
    ensures Parse(s, 8192) == Some(UrlParts(host, DefaultPort, path))
  {
    LongPathSpells(s, host, path);
    ParseComplete(s, host, None, path, 8192);
  }

  lemma LongPathSpells(s: seq<Byte>, host: seq<Byte>, path: seq<Byte>)
    requires s == "gemini://host/a/path/for/testing" && host == "host" && path == "/a/path/for/testing"
    ensures Spells(s, host, None, path)
  {
    assert HostName(host);
    assert IsPath(path);
    LongPathSplits(s, host, path);
  }

  lemma LongPathSplits(s: seq<Byte>, host: seq<Byte>, path: seq<Byte>)
    requires s == "gemini://host/a/path/for/testing" && host == "host" && path == "/a/path/for/testing"
    ensures s == Scheme + host + PortText(None) + path
  {
    assert PortText(None) == [];
  }

  /** A ':' with no digits after it gives port 0. */
  lemma EmptyPortAccepted()
    ensures Parse("gemini://host:/", 8192) == Some(UrlParts("host", 0, "/"))
  {
    assert Value([]) == 0;
    ParseComplete("gemini://host:/", "host", Some([]), "/", 8192);
  }

  /** The host of the tests.c vector named "all allowed host characters": letters,
      digits and dots (it has no lower-case u). */
  const LowerHost: seq<Byte> := "abcdef.ghij.kl.m.nopq.rstv.wxyz."
  const DigitHost: seq<Byte> := "01.23.45.67.89."
  const UpperHost: seq<Byte> := "ABCDEF.GHIJKLMN.O.P.QRSTUVW.XYZ"
  const FullHost: seq<Byte> := LowerHost + DigitHost + UpperHost

  /** The tests.c host of letters, digits and dots parses; the general fact is
      ParseComplete's. */
  lemma AllHostCharsAccepted()
    ensures Parse(Scheme + FullHost + "/", 8192) == Some(UrlParts(FullHost, DefaultPort, "/"))
  {
    HostPieces();
    HostNameJoin(LowerHost, DigitHost);
    HostNameJoin(LowerHost + DigitHost, UpperHost);
    assert Scheme + FullHost + PortText(None) + "/" == Scheme + FullHost + "/";
    ParseComplete(Scheme + FullHost + "/", FullHost, None, "/", 8192);
  }

  lemma HostPieces()
    ensures HostName(LowerHost) && HostName(DigitHost) && HostName(UpperHost)
  {
    LowerHostName(LowerHost);
    DigitHostName(DigitHost);
    UpperHostName(UpperHost);
  }

  lemma LowerHostName(h: seq<Byte>)
    requires h == LowerHost
    ensures HostName(h)
  {
  }

  lemma DigitHostName(h: seq<Byte>)
    requires h == DigitHost
    ensures HostName(h)
  {
  }

  lemma UpperHostName(h: seq<Byte>)
    requires h == UpperHost
    ensures HostName(h)
  {
  }

  lemma HostNameJoin(a: seq<Byte>, b: seq<Byte>)
    requires HostName(a) && HostName(b)
    ensures HostName(a + b)
  {
    assert forall i :: 0 <= i < |a + b| ==> (a + b)[i] == if i < |a| then a[i] else b[i - |a|];
  }

  /** With ParseUrl's test as written, the valid "gemini://x/" gives null and the
      empty string, which is no URL, gives a struct. */
  lemma ParseUrlInverted()
    ensures ParseCode("gemini://x/", |"gemini://x/"| + 1) == 0
    ensures ParseCode("", 1) != 0
  {
    ParseComplete("gemini://x/", "x", None, "/", 12);
  }
}
