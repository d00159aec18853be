/** The peers that requests and responses talk to.

    A byte source (a file descriptor or a TLS session that is read) and a byte
    sink (a TLS session or a file descriptor that is written) are objects whose
    behaviour is a script of replies fixed in advance: every run of a real peer
    is one choice of script.  A sink always takes at least one byte of a
    non-empty write, or fails; a source hands out at most the bytes asked for,
    fails, or reports end of input once its script is used up. */
module Io {
  import opened Bytes

  type Pos = k: nat | k > 0 witness 1

  /** Non-empty runs of bytes, as one read of a source can return them. */
  type Bytes1 = b: seq<Byte> | |b| > 0 witness [NUL]

  // ---------------------------------------------------------------- sinks

  /** One reply of a sink to a write: take at most limit bytes, or fail. */
  datatype Reply = Take(limit: Pos) | Refuse

  /** The count a sink with this script answers to a write of offered bytes:
      -1 on failure, otherwise between 1 and offered.  A sink whose script is
      used up takes everything. */
  function Accepts(script: seq<Reply>, offered: Pos): (k: int)
    ensures k == -1 || 0 < k <= offered
    ensures k == -1 <==> script != [] && script[0] == Refuse
  {
    if script == [] then offered
    else match script[0]
      case Refuse => -1
      case Take(limit) => if limit < offered then limit else offered
  }

  /** Whether a sink takes bytes on every reply of its script. */
  predicate NeverRefuses(script: seq<Reply>) {
    forall j :: 0 <= j < |script| ==> script[j].Take?
  }

  /** The script after one reply was given. */
  function After<T>(script: seq<T>): (rest: seq<T>)
    ensures script != [] ==> rest == script[1..]
    ensures script == [] ==> rest == []
  {
    if script == [] then [] else script[1..]
  }

  class Sink {
    var script: seq<Reply>
    var received: seq<Byte>

    constructor (script: seq<Reply>)
      ensures this.script == script && received == []
    {
      this.script := script;
      received := [];
    }

    /** write(2) or SSL_write_ex of data: the sink keeps the accepted bytes. */
    method Put(data: seq<Byte>) returns (k: int)
      requires |data| > 0
      modifies this
      ensures k == Accepts(old(script), |data|)
      ensures received == old(received) + (if k < 0 then [] else data[..k])
      ensures script == After(old(script))
    {
      k := Accepts(script, |data|);
      if k >= 0 {
        received := received + data[..k];
      }
      script := After(script);
    }
  }

  // -------------------------------------------------------------- sources

  /** One piece of what a source delivers: some bytes, or a failed read.
      The end of the script is the end of input, and it lasts. */
  datatype Chunk = Data(bytes: Bytes1) | Broken

  /** What one read reports: its result, the bytes stored, the script left. */
  datatype Pulled = Pulled(got: int, bytes: seq<Byte>, rest: seq<Chunk>)

  /** The total size of a script, which every successful read lowers. */
  function Size(script: seq<Chunk>): nat {
    if script == [] then 0
    else (if script[0].Data? then |script[0].bytes| else 0) + 1 + Size(script[1..])
  }

  /** The bytes a source delivers before it fails or its input ends. */
  function Content(script: seq<Chunk>): seq<Byte> {
    if script == [] then []
    else match script[0]
      case Broken => []
      case Data(b) => b + Content(script[1..])
  }

  /** Whether the source fails before its input ends. */
  predicate BreaksOff(script: seq<Chunk>) {
    script != [] && (script[0].Broken? || BreaksOff(script[1..]))
  }

  /** One read(2) or SSL_read of at most room bytes. */
  function Pull(script: seq<Chunk>, room: nat): (p: Pulled)
    ensures (p.got == -1 && p.bytes == []) || p.got == |p.bytes| <= room
    ensures p.got > 0 ==> p.got + Size(p.rest) <= Size(script)
  {
    if room == 0 || script == [] then Pulled(0, [], script)
    else match script[0]
      case Broken => Pulled(-1, [], script[1..])
      case Data(b) =>
        if |b| <= room then Pulled(|b|, b, script[1..])
        else Pulled(room, b[..room], [Data(b[room..])] + script[1..])
  }

  /** A read that got bytes took them off the front of what the source holds. */
  lemma PullTakes(script: seq<Chunk>, room: nat, rd: Pulled)
    requires room > 0 && rd == Pull(script, room) && rd.got > 0
    ensures Content(script) == rd.bytes + Content(rd.rest)
    ensures BreaksOff(script) <==> BreaksOff(rd.rest)
  {
    PullContent(script, room);
  }

  /** A read with room reports what the script holds: its next bytes, the
      end of input exactly when the script is used up, or its failure. */
  lemma PullContent(script: seq<Chunk>, room: nat)
    requires room > 0
    ensures var p := Pull(script, room);
      && (p.got > 0 ==> Content(script) == p.bytes + Content(p.rest)
                        && (BreaksOff(script) <==> BreaksOff(p.rest)))
      && (p.got == 0 <==> script == [])
      && (p.got < 0 <==> script != [] && script[0] == Broken)
  {
    if script != [] && script[0].Data? && |script[0].bytes| > room {
      PullSplits(script, room);
    }
  }

  lemma PullSplits(script: seq<Chunk>, room: nat)
    requires room > 0 && script != [] && script[0].Data? && |script[0].bytes| > room
    ensures var p := Pull(script, room);
      Content(script) == p.bytes + Content(p.rest) && (BreaksOff(script) <==> BreaksOff(p.rest))
  {
    var b := script[0].bytes;
    var rest := [Data(b[room..])] + script[1..];
    assert Pull(script, room).rest == rest;
    assert rest[1..] == script[1..];
    var c := Content(script[1..]);
    assert Content(script) == b + c;
    assert Content(rest) == b[room..] + c;
    assert BreaksOff(rest) == BreaksOff(script[1..]);
    CutAt(b, room, c);
  }

  lemma CutAt<T>(x: seq<T>, k: nat, c: seq<T>)
    requires k <= |x|
    ensures x + c == x[..k] + (x[k..] + c)
  {
    assert x == x[..k] + x[k..];
  }

  class Source {
    var script: seq<Chunk>

    constructor (script: seq<Chunk>)
      ensures this.script == script
    {
      this.script := script;
    }

    /** read(2) or SSL_read of at most room bytes into buf at offset at. */
    method Read(buf: array<Byte>, at: nat, room: nat) returns (got: int)
      requires at + room <= buf.Length
      modifies this, buf
      ensures got == Pull(old(script), room).got
      ensures script == Pull(old(script), room).rest
      ensures var b := Pull(old(script), room).bytes;
        && buf[..at] == old(buf[..at])
        && buf[at..at + |b|] == b
        && buf[at + |b|..] == old(buf[at + |b|..])
    {
      var p := Pull(script, room);
      CopyInto(buf, at, p.bytes);
      got := p.got;
      script := p.rest;
    }
  }

  // ----------------------------------------------------- stream copying

  /** One step of a stream copy, as the copier sees it. */
  datatype Step = Got(bytes: seq<Byte>) | Ended | ReadFailed | Wrote(bytes: seq<Byte>) | WriteFailed(bytes: seq<Byte>)

  predicate Failure(s: Step) {
    s.ReadFailed? || s.WriteFailed?
  }

  /** The outcome of a stream copy: its result, its steps, the scripts left. */
  datatype Relayed = Relayed(result: int, steps: seq<Step>, src: seq<Chunk>, sink: seq<Reply>)

  function WithSteps(steps: seq<Step>, o: Relayed): (r: Relayed)
    ensures r.result == o.result && r.src == o.src && r.sink == o.sink
    ensures r.steps == steps + o.steps
  {
    o.(steps := steps + o.steps)
  }

  lemma WithStepsNest(a: seq<Step>, b: seq<Step>, o: Relayed)
    ensures WithSteps(a, WithSteps(b, o)) == WithSteps(a + b, o)
  {
    assert a + (b + o.steps) == (a + b) + o.steps;
  }

  /** The bytes the copier obtained from the source. */
  function ReadBytes(steps: seq<Step>): seq<Byte> {
    if steps == [] then []
    else (if steps[0].Got? then steps[0].bytes else []) + ReadBytes(steps[1..])
  }

  /** The bytes the sink took, failed writes included. */
  function SentBytes(steps: seq<Step>): seq<Byte> {
    if steps == [] then []
    else (if steps[0].Wrote? || steps[0].WriteFailed? then steps[0].bytes else []) + SentBytes(steps[1..])
  }

  lemma {:induction false} ReadBytesAppend(a: seq<Step>, b: seq<Step>)
    ensures ReadBytes(a + b) == ReadBytes(a) + ReadBytes(b)
  {
    if a == [] {
      assert a + b == b;
    } else {
      var h := if a[0].Got? then a[0].bytes else [];
      var ab := a + b;
      assert ab != [] && ab[0] == a[0] && ab[1..] == a[1..] + b;
      assert ReadBytes(a) == h + ReadBytes(a[1..]);
      assert ReadBytes(ab) == h + ReadBytes(a[1..] + b);
      ReadBytesAppend(a[1..], b);
      Regroup(h, ReadBytes(a[1..]), ReadBytes(b));
    }
  }

  lemma {:induction false} SentBytesAppend(a: seq<Step>, b: seq<Step>)
    ensures SentBytes(a + b) == SentBytes(a) + SentBytes(b)
  {
    if a == [] {
      assert a + b == b;
    } else {
      var h := if a[0].Wrote? || a[0].WriteFailed? then a[0].bytes else [];
      var ab := a + b;
      assert ab != [] && ab[0] == a[0] && ab[1..] == a[1..] + b;
      assert SentBytes(a) == h + SentBytes(a[1..]);
      assert SentBytes(ab) == h + SentBytes(a[1..] + b);
      SentBytesAppend(a[1..], b);
      Regroup(h, SentBytes(a[1..]), SentBytes(b));
    }
  }

  /** A copy stops at its first failure and reports it: the result is
      negative exactly when the last step failed, and no earlier step did. */
  predicate StopsAtFailure(o: Relayed) {
    && (o.result < 0 <==> o.steps != [] && Failure(o.steps[|o.steps| - 1]))
    && forall i :: 0 <= i < |o.steps| - 1 ==> !Failure(o.steps[i])
  }

  /** Prepending steps that did not fail keeps a copy stopping at its failure. */
  lemma StopsAtFailureWith(steps: seq<Step>, o: Relayed)
    requires StopsAtFailure(o)
    requires forall i :: 0 <= i < |steps| ==> !Failure(steps[i])
    requires o.result < 0 ==> o.steps != []
    ensures StopsAtFailure(WithSteps(steps, o))
  {
    var r := WithSteps(steps, o);
    forall i | 0 <= i < |r.steps| - 1
      ensures !Failure(r.steps[i])
    {
      if i >= |steps| {
        assert r.steps[i] == o.steps[i - |steps|];
      }
    }
  }

  /** What flushing the bytes p held promises: it stops at its first failure,
      reads nothing, and sends all of p when it returns 0; otherwise it
      returns -1 having sent a prefix of p. */
  predicate Flushed(o: Relayed, p: seq<Byte>) {
    && StopsAtFailure(o)
    && ReadBytes(o.steps) == []
    && (o.result == 0 ==> SentBytes(o.steps) == p)
    && (o.result != 0 ==> o.result == -1 && SentBytes(o.steps) <= p)
  }

  /** A write that took the first k bytes of p, then a flush of the rest. */
  lemma FlushedAfterWrite(o: Relayed, p: seq<Byte>, k: nat)
    requires k <= |p| && Flushed(o, p[k..])
    requires o.result < 0 ==> o.steps != []
    ensures Flushed(WithSteps([Wrote(p[..k])], o), p)
  {
    var head := [Wrote(p[..k])];
    StopsAtFailureWith(head, o);
    ReadBytesAppend(head, o.steps);
    SentBytesAppend(head, o.steps);
    OneStep(Wrote(p[..k]));
    assert p == p[..k] + p[k..];
    var sb := SentBytes(o.steps);
    if o.result != 0 {
      assert p[..k] + sb == p[..k + |sb|];
    }
  }

  /** What a stream copy promises, for a source script src and the bytes p
      held in the buffer when it starts: it stops at its first failure; when it
      returns 0 the sink got p and then exactly what the source holds, in order,
      and the source did not fail; otherwise it returned -1 and the sink got a
      prefix of p followed by what was read. */
  predicate Delivered(o: Relayed, src: seq<Chunk>, p: seq<Byte>) {
    && StopsAtFailure(o)
    && (o.result == 0 ==> !BreaksOff(src) && ReadBytes(o.steps) == Content(src)
                          && SentBytes(o.steps) == p + Content(src))
    && (o.result != 0 ==> o.result == -1 && SentBytes(o.steps) <= p + ReadBytes(o.steps))
  }

  /** The end of input, then a flush of the p bytes held. */
  lemma DeliveredAfterEnd(f: Relayed, p: seq<Byte>)
    requires Flushed(f, p)
    ensures Delivered(WithSteps([Ended], f), [], p)
  {
    StopsAtFailureWith([Ended], f);
    ReadBytesAppend([Ended], f.steps);
    SentBytesAppend([Ended], f.steps);
    OneStep(Ended);
    assert p + Content([]) == p;
  }

  /** The bookkeeping of one read of bytes b followed by a write that took
      the first k of q == p + b, before the rest of the copy o started from
      q[k..]. */
  lemma DeliveredAfterWrite(o: Relayed, src: seq<Chunk>, rest: seq<Chunk>, p: seq<Byte>, b: seq<Byte>, k: nat)
    requires k <= |p + b|
    requires Content(src) == b + Content(rest) && (BreaksOff(src) <==> BreaksOff(rest))
    requires Delivered(o, rest, (p + b)[k..])
    ensures Delivered(WithSteps([Got(b), Wrote((p + b)[..k])], o), src, p)
  {
    var q := p + b;
    var head := [Got(b), Wrote(q[..k])];
    StopsAtFailureWith(head, o);
    HeadBytes(head, o.steps, b, q[..k]);
    var rb := ReadBytes(o.steps);
    var sb := SentBytes(o.steps);
    if o.result == 0 {
      KeptInOrder(p, b, k, Content(rest));
    } else {
      KeptPrefix(p, b, k, sb, rb);
    }
  }

  /** The bytes read and sent by a read of b and a write of w before steps. */
  lemma HeadBytes(head: seq<Step>, steps: seq<Step>, b: seq<Byte>, w: seq<Byte>)
    requires head == [Got(b), Wrote(w)]
    ensures ReadBytes(head + steps) == b + ReadBytes(steps)
    ensures SentBytes(head + steps) == w + SentBytes(steps)
  {
    ReadBytesAppend(head, steps);
    SentBytesAppend(head, steps);
    TwoSteps(Got(b), Wrote(w));
    OneStep(Got(b));
    OneStep(Wrote(w));
    assert b + [] == b && [] + w == w;
  }

  /** Splitting p + b at k and appending c regroups to p + (b + c). */
  lemma KeptInOrder(p: seq<Byte>, b: seq<Byte>, k: nat, c: seq<Byte>)
    requires k <= |p + b|
    ensures (p + b)[..k] + ((p + b)[k..] + c) == p + (b + c)
  {
    CutAt(p + b, k, c);
    Regroup(p, b, c);
  }

  /** A prefix of the rest after the first k of p + b extends to a prefix of
      everything. */
  lemma KeptPrefix(p: seq<Byte>, b: seq<Byte>, k: nat, sb: seq<Byte>, rb: seq<Byte>)
    requires k <= |p + b| && sb <= (p + b)[k..] + rb
    ensures (p + b)[..k] + sb <= p + (b + rb)
  {
    KeptInOrder(p, b, k, rb);
    var x := (p + b)[..k];
    var y := (p + b)[k..] + rb;
    assert (x + sb) == (x + y)[..|x| + |sb|];
  }

  /** Steps that read b and then had the sink take w add w to what was sent. */
  lemma SentAfter(done: seq<Step>, b: seq<Byte>, w: seq<Byte>, last: Step)
    requires last == Wrote(w) || last == WriteFailed(w)
    ensures SentBytes(done + [Got(b), last]) == SentBytes(done) + w
  {
    SentBytesAppend(done, [Got(b), last]);
    TwoSteps(Got(b), last);
    OneStep(Got(b));
    OneStep(last);
  }

  /** A step that hands the sink nothing leaves what it took unchanged. */
  lemma SentNothing(done: seq<Step>, s: Step)
    requires !s.Wrote? && (s.WriteFailed? ==> s.bytes == [])
    ensures SentBytes(done + [s]) == SentBytes(done)
  {
    SentBytesAppend(done, [s]);
    OneStep(s);
    assert SentBytes(done) + [] == SentBytes(done);
  }

  // ------------------------------------------------------------- closing

  /** What closing a request or response gives back to the system. */
  datatype Resource = TlsSession | Socket(fd: int) | UrlStorage

  /** The resources released by closing an object that holds a TLS session
      (when ssl), the descriptor fd and a parsed URL (when url). */
  function Releases(ssl: bool, fd: int, url: bool): (r: seq<Resource>)
    ensures TlsSession in r <==> ssl
    ensures UrlStorage in r <==> url
    ensures forall f :: Socket(f) in r <==> f == fd && fd >= 0
    ensures forall i, j :: 0 <= i < j < |r| ==> r[i] != r[j]
  {
    (if ssl then [TlsSession] else []) + (if fd >= 0 then [Socket(fd)] else []) + (if url then [UrlStorage] else [])
  }

  /** The descriptor left after closing: -1 once an open one was closed;
      a negative one is left alone. */
  function ClosedFd(fd: int): (c: int)
    ensures c < 0
    ensures fd < 0 ==> c == fd
  {
    if fd >= 0 then -1 else fd
  }

  lemma OneStep(s: Step)
    ensures ReadBytes([s]) == (if s.Got? then s.bytes else [])
    ensures SentBytes([s]) == (if s.Wrote? || s.WriteFailed? then s.bytes else [])
  {
    assert [s][1..] == [];
  }

  lemma TwoSteps(s: Step, t: Step)
    ensures ReadBytes([s, t]) == ReadBytes([s]) + ReadBytes([t])
    ensures SentBytes([s, t]) == SentBytes([s]) + SentBytes([t])
  {
    ReadBytesAppend([s], [t]);
    SentBytesAppend([s], [t]);
    assert [s] + [t] == [s, t];
  }

  /** Closing twice releases nothing the second time. */
  lemma CloseIdempotent(fd: int)
    ensures ClosedFd(ClosedFd(fd)) == ClosedFd(fd)
    ensures Releases(false, ClosedFd(fd), false) == []
  {
  }

  /** The releases an object has made so far name each resource at most once,
      and nothing released is still held. */
  predicate ReleasedOnce(released: seq<Resource>, ssl: bool, fd: int, url: bool) {
    && (forall i, j :: 0 <= i < j < |released| ==> released[i] != released[j])
    && (TlsSession in released ==> !ssl)
    && (UrlStorage in released ==> !url)
    && (fd >= 0 ==> Socket(fd) !in released)
  }

  /** Closing keeps that record: every resource is released at most once. */
  lemma CloseReleasesOnce(released: seq<Resource>, ssl: bool, fd: int, url: bool)
    requires ReleasedOnce(released, ssl, fd, url)
    ensures ReleasedOnce(released + Releases(ssl, fd, url), false, ClosedFd(fd), false)
  {
    var r := released + Releases(ssl, fd, url);
    forall i, j | 0 <= i < j < |r|
      ensures r[i] != r[j]
    {
      if j >= |released| && i < |released| {
        assert r[j] in Releases(ssl, fd, url);
        assert r[i] in released;
      } else if i >= |released| {
        assert r[i] == Releases(ssl, fd, url)[i - |released|];
        assert r[j] == Releases(ssl, fd, url)[j - |released|];
      }
    }
  }
}
