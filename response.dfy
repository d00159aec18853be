/** The client side of a Gemini exchange once the request went out: reading
    the response from the TLS session, streaming it out to a descriptor, and
    closing it.

    The TLS session is a scripted Source and the descriptor written to is a
    scripted Sink (module Io).  gemini_response_read gathers SSL_reads until
    its buffer is full or a read returns 0 or less; gemini_response_stream
    copies the session to the descriptor through a buffer of block bytes,
    keeping what a partial write left over. */
module Response {
  import opened Bytes
  import opened Io
  import Url

  // ------------------------------------------------------------ reading

  /** What one gemini_response_read reports: its result, the bytes it stored
      and the session's script left. */
  datatype Gathered = Gathered(result: int, bytes: seq<Byte>, rest: seq<Chunk>)

  /** The outcome g of the rest of a read, after got bytes b came first. */
  function Joined(got: nat, b: seq<Byte>, g: Gathered): (r: Gathered)
    ensures r.bytes == b + g.bytes && r.rest == g.rest
    ensures r.result == (if g.result < 0 then g.result else got + g.result)
  {
    Gathered(if g.result < 0 then g.result else got + g.result, b + g.bytes, g.rest)
  }

  /** The loop of gemini_response_read on room bytes: SSL_read into what is
      left of the buffer until it is full or a read returns 0 or less.  last
      is the value nread holds when the loop is entered; it is the result
      when room is 0 and it is negative, since the loop then never reads. */
  function Collect(src: seq<Chunk>, room: nat, last: int): Gathered
    decreases room
  {
    if room == 0 then Gathered(if last < 0 then last else 0, [], src)
    else
      var rd := Pull(src, room);
      if rd.got <= 0 then Gathered(rd.got, [], rd.rest)
      else Joined(rd.got, rd.bytes, Collect(rd.rest, room - rd.got, rd.got))
  }

  /** A read stores at most room bytes and reports how many; it fails with
      -1, the value SSL_read failed with, unless it read nothing at all and
      nread held a negative value already; a read that got bytes used up at
      least that much of the session's script. */
  lemma {:induction false} CollectBounds(src: seq<Chunk>, room: nat, last: int)
    ensures var g := Collect(src, room, last);
      && |g.bytes| <= room
      && (g.result >= 0 ==> g.result == |g.bytes|)
      && (g.result < 0 ==> g.result == -1 || (room == 0 && g.result == last))
      && (g.result > 0 ==> |g.bytes| + Size(g.rest) <= Size(src))
    decreases room
  {
    if room > 0 {
      var rd := Pull(src, room);
      if rd.got > 0 {
        CollectBounds(rd.rest, room - rd.got, rd.got);
      }
    }
  }

  /** gemini_response_read with nread set to 0 before its loop. */
  function Gather(src: seq<Chunk>, room: nat): (g: Gathered)
    ensures g.result >= -1 && |g.bytes| <= room
    ensures g.result >= 0 ==> g.result == |g.bytes|
    ensures g.result > 0 ==> |g.bytes| + Size(g.rest) <= Size(src)
  {
    CollectBounds(src, room, 0);
    Collect(src, room, 0)
  }

  function Min(a: nat, b: nat): nat {
    if a <= b then a else b
  }

  /** A read of room bytes returns the first room bytes the session holds
      when it holds that many; otherwise everything it holds, and then -1 if
      the session fails and the count if its input ends. */
  lemma {:induction false} GatherReads(src: seq<Chunk>, room: nat)
    ensures var g := Gather(src, room);
      var c := Content(src);
      && g.bytes == c[..Min(room, |c|)]
      && g.result == (if room <= |c| then room else if BreaksOff(src) then -1 else |c|)
    decreases room
  {
    CollectReads(src, room, 0);
  }

  lemma {:induction false} CollectReads(src: seq<Chunk>, room: nat, last: int)
    requires last >= 0
    ensures var g := Collect(src, room, last);
      var c := Content(src);
      && g.bytes == c[..Min(room, |c|)]
      && g.result == (if room <= |c| then room else if BreaksOff(src) then -1 else |c|)
    decreases room
  {
    if room > 0 {
      var rd := Pull(src, room);
      PullContent(src, room);
      if rd.got > 0 {
        var c' := Content(rd.rest);
        CollectReads(rd.rest, room - rd.got, rd.got);
        PrefixJoin(rd.bytes, c', Min(room - rd.got, |c'|));
      }
    }
  }

  /** Reading the first k bytes of y after all of x. */
  lemma PrefixJoin<T>(x: seq<T>, y: seq<T>, k: nat)
    requires k <= |y|
    ensures (x + y)[..|x| + k] == x + y[..k]
  {
  }

  /** What a read took from the session: when it did not fail, the bytes it
      stored come first in what the session holds and the rest follows; a
      read that returned 0 with room found the input at its end. */
  lemma {:induction false} CollectContent(src: seq<Chunk>, room: nat, last: int)
    requires last >= 0
    ensures var g := Collect(src, room, last);
      && (g.result >= 0 ==> Content(src) == g.bytes + Content(g.rest)
                            && (BreaksOff(src) <==> BreaksOff(g.rest)))
      && (g.result == 0 && room > 0 ==> src == [] && g.rest == [])
    decreases room
  {
    if room > 0 {
      var rd := Pull(src, room);
      PullContent(src, room);
      if rd.got > 0 {
        var g := Collect(rd.rest, room - rd.got, rd.got);
        CollectContent(rd.rest, room - rd.got, rd.got);
        Regroup(rd.bytes, g.bytes, Content(g.rest));
      }
    }
  }

  /** The value nread starts with matters only for a read of 0 bytes. */
  lemma CollectIgnoresLast(src: seq<Chunk>, room: nat, a: int, b: int)
    requires room > 0
    ensures Collect(src, room, a) == Collect(src, room, b)
  {
  }

  /** gemini_response_read as written leaves nread unset, and a read of 0
      bytes returns whatever it held when that is negative. */
  lemma UnsetReadResult(src: seq<Chunk>, junk: int)
    requires junk < 0
    ensures Collect(src, 0, junk).result == junk
    ensures Gather(src, 0).result == 0
  {
  }

  // ---------------------------------------------------------- streaming

  /** gemini_response_stream in its read loop: read into the rest of the
      block after the pending bytes p, make one write of everything held, and
      keep what the descriptor did not take. */
  function Copy(src: seq<Chunk>, sink: seq<Reply>, p: seq<Byte>, block: nat): (o: Relayed)
    requires |p| <= block
    decreases Size(src)
  {
    var g := Gather(src, block - |p|);
    if g.result < 0 then Relayed(g.result, [ReadFailed], g.rest, sink)
    else if g.result == 0 then WithSteps([Ended], Flush(g.rest, sink, p))
    else
      var q := p + g.bytes;
      var k := Accepts(sink, |q|);
      if k < 0 then Relayed(k, [Got(g.bytes), WriteFailed([])], g.rest, After(sink))
      else WithSteps([Got(g.bytes), Wrote(q[..k])], Copy(g.rest, After(sink), q[k..], block))
  }

  /** gemini_response_stream after end of input: write until nothing is held. */
  function Flush(src: seq<Chunk>, sink: seq<Reply>, p: seq<Byte>): (o: Relayed)
    decreases |p|
  {
    if p == [] then Relayed(0, [], src, sink)
    else
      var k := Accepts(sink, |p|);
      if k < 0 then Relayed(k, [WriteFailed([])], src, After(sink))
      else WithSteps([Wrote(p[..k])], Flush(src, After(sink), p[k..]))
  }

  /** The bookkeeping of one turn of the read loop that wrote k bytes. */
  lemma TurnWrote(whole: Relayed, done: seq<Step>, src: seq<Chunk>, sink: seq<Reply>, p: seq<Byte>, block: nat,
                  g: Gathered, q: seq<Byte>, k: int, base: seq<Byte>)
    requires |p| <= block
    requires whole == WithSteps(done, Copy(src, sink, p, block))
    requires g == Gather(src, block - |p|) && g.result > 0 && q == p + g.bytes
    requires k == Accepts(sink, |q|) && k >= 0
    ensures |q[k..]| < block && Size(g.rest) < Size(src)
    ensures whole == WithSteps(done + [Got(g.bytes), Wrote(q[..k])], Copy(g.rest, After(sink), q[k..], block))
    ensures base + SentBytes(done) + q[..k] == base + SentBytes(done + [Got(g.bytes), Wrote(q[..k])])
  {
    WithStepsNest(done, [Got(g.bytes), Wrote(q[..k])], Copy(g.rest, After(sink), q[k..], block));
    SentAfter(done, g.bytes, q[..k], Wrote(q[..k]));
    Regroup(base, SentBytes(done), q[..k]);
  }

  /** The bookkeeping of one turn of the read loop whose write failed. */
  lemma TurnWriteFailed(whole: Relayed, done: seq<Step>, src: seq<Chunk>, sink: seq<Reply>, p: seq<Byte>, block: nat,
                        g: Gathered, q: seq<Byte>, k: int, base: seq<Byte>)
    requires |p| <= block
    requires whole == WithSteps(done, Copy(src, sink, p, block))
    requires g == Gather(src, block - |p|) && g.result > 0 && q == p + g.bytes
    requires k == Accepts(sink, |q|) && k < 0
    ensures whole == Relayed(-1, done + [Got(g.bytes), WriteFailed([])], g.rest, After(sink))
    ensures base + SentBytes(done) == base + SentBytes(whole.steps)
  {
    SentAfter(done, g.bytes, [], WriteFailed([]));
    assert SentBytes(done) + [] == SentBytes(done);
  }

  /** The bookkeeping of the end of the read loop. */
  lemma TurnEnded(whole: Relayed, done: seq<Step>, src: seq<Chunk>, sink: seq<Reply>, p: seq<Byte>, block: nat,
                  g: Gathered)
    requires |p| <= block
    requires whole == WithSteps(done, Copy(src, sink, p, block))
    requires g == Gather(src, block - |p|) && g.result <= 0
    ensures g.result < 0 ==> whole == Relayed(g.result, done + [ReadFailed], g.rest, sink)
                             && SentBytes(done + [ReadFailed]) == SentBytes(done)
    ensures g.result == 0 ==> whole == WithSteps(done + [Ended], Flush(g.rest, sink, p))
                              && SentBytes(done + [Ended]) == SentBytes(done)
  {
    SentBytesAppend(done, [ReadFailed]);
    OneStep(ReadFailed);
    SentBytesAppend(done, [Ended]);
    OneStep(Ended);
    WithStepsNest(done, [Ended], Flush(g.rest, sink, p));
  }

  /** The bookkeeping of one turn of the flush loop. */
  lemma TurnFlushed(whole: Relayed, done: seq<Step>, src: seq<Chunk>, sink: seq<Reply>, p: seq<Byte>)
    requires whole == WithSteps(done, Flush(src, sink, p)) && p != []
    ensures var k := Accepts(sink, |p|);
      && (k >= 0 ==> whole == WithSteps(done + [Wrote(p[..k])], Flush(src, After(sink), p[k..]))
                     && SentBytes(done + [Wrote(p[..k])]) == SentBytes(done) + p[..k])
      && (k < 0 ==> whole.result == -1 && whole.src == src && whole.sink == After(sink)
                    && SentBytes(whole.steps) == SentBytes(done))
  {
    var k := Accepts(sink, |p|);
    if k >= 0 {
      TurnFlushWrote(whole, done, src, sink, p, k);
    } else {
      TurnFlushFailed(whole, done, src, sink, p);
    }
  }

  lemma TurnFlushFailed(whole: Relayed, done: seq<Step>, src: seq<Chunk>, sink: seq<Reply>, p: seq<Byte>)
    requires whole == WithSteps(done, Flush(src, sink, p)) && p != []
    requires Accepts(sink, |p|) < 0
    ensures whole.result == -1 && whole.src == src && whole.sink == After(sink)
    ensures SentBytes(whole.steps) == SentBytes(done)
  {
    FlushFailed(src, sink, p);
    SentNothing(done, WriteFailed([]));
  }

  lemma TurnFlushWrote(whole: Relayed, done: seq<Step>, src: seq<Chunk>, sink: seq<Reply>, p: seq<Byte>, k: int)
    requires whole == WithSteps(done, Flush(src, sink, p)) && p != []
    requires k == Accepts(sink, |p|) && k >= 0
    ensures whole == WithSteps(done + [Wrote(p[..k])], Flush(src, After(sink), p[k..]))
    ensures SentBytes(done + [Wrote(p[..k])]) == SentBytes(done) + p[..k]
  {
    var step := Wrote(p[..k]);
    FlushWrote(src, sink, p, k);
    WithStepsNest(done, [step], Flush(src, After(sink), p[k..]));
    SentBytesAppend(done, [step]);
    OneStep(step);
  }

  lemma FlushWrote(src: seq<Chunk>, sink: seq<Reply>, p: seq<Byte>, k: int)
    requires p != [] && k == Accepts(sink, |p|) && k >= 0
    ensures Flush(src, sink, p) == WithSteps([Wrote(p[..k])], Flush(src, After(sink), p[k..]))
  {
  }

  lemma FlushFailed(src: seq<Chunk>, sink: seq<Reply>, p: seq<Byte>)
    requires p != [] && Accepts(sink, |p|) < 0
    ensures Flush(src, sink, p) == Relayed(-1, [WriteFailed([])], src, After(sink))
  {
  }

  /** Flushing sends what was held, or fails with -1 having sent part of it. */
  lemma {:induction false} FlushOutcome(src: seq<Chunk>, sink: seq<Reply>, p: seq<Byte>)
    ensures Flushed(Flush(src, sink, p), p)
    decreases |p|
  {
    if p != [] {
      var k := Accepts(sink, |p|);
      if k >= 0 {
        FlushWrote(src, sink, p, k);
        FlushOutcome(src, After(sink), p[k..]);
        FlushedAfterWrite(Flush(src, After(sink), p[k..]), p, k);
      } else {
        FlushFailed(src, sink, p);
        OneStep(WriteFailed([]));
      }
    } else {
      assert Flush(src, sink, p) == Relayed(0, [], src, sink);
    }
  }

  /** The stream copier delivers exactly what the session holds, in order,
      when it returns 0; otherwise it returns -1 at its first failure and the
      descriptor has taken a prefix of what was read. */
  lemma {:induction false} CopyOutcome(src: seq<Chunk>, sink: seq<Reply>, p: seq<Byte>, block: nat)
    requires |p| < block
    ensures Delivered(Copy(src, sink, p, block), src, p)
    decreases Size(src)
  {
    var g := Gather(src, block - |p|);
    if g.result == 0 {
      CopyEnded(src, sink, p, block);
    } else if g.result > 0 {
      var q := p + g.bytes;
      var k := Accepts(sink, |q|);
      if k >= 0 {
        CopyOutcome(g.rest, After(sink), q[k..], block);
        CopyWrote(src, sink, p, block, g, k);
      } else {
        CopyWriteFailed(src, sink, p, block);
      }
    } else {
      OneStep(ReadFailed);
    }
  }

  /** The converse of CopyOutcome: a session that never fails and a
      descriptor that never refuses make the copier return 0, having written
      what was held and then everything the session holds. */
  lemma {:induction false} CopySucceeds(src: seq<Chunk>, sink: seq<Reply>, p: seq<Byte>, block: nat)
    requires |p| < block && !BreaksOff(src) && NeverRefuses(sink)
    ensures Copy(src, sink, p, block).result == 0
    ensures SentBytes(Copy(src, sink, p, block).steps) == p + Content(src)
    decreases Size(src)
  {
    CopyOutcome(src, sink, p, block);
    var g := Gather(src, block - |p|);
    GatherReads(src, block - |p|);
    CollectContent(src, block - |p|, 0);
    if g.result == 0 {
      FlushSucceeds(g.rest, sink, p);
    } else {
      var q := p + g.bytes;
      var k := Accepts(sink, |q|);
      CopySucceeds(g.rest, After(sink), q[k..], block);
    }
  }

  /** A descriptor that never refuses takes everything a flush holds. */
  lemma {:induction false} FlushSucceeds(src: seq<Chunk>, sink: seq<Reply>, p: seq<Byte>)
    requires NeverRefuses(sink)
    ensures Flush(src, sink, p).result == 0
    decreases |p|
  {
    if p != [] {
      var k := Accepts(sink, |p|);
      FlushSucceeds(src, After(sink), p[k..]);
    }
  }

  /** A read of g followed by a write that took k bytes, before a copy that
      delivered what was left. */
  lemma CopyWrote(src: seq<Chunk>, sink: seq<Reply>, p: seq<Byte>, block: nat, g: Gathered, k: int)
    requires |p| < block && g == Gather(src, block - |p|) && g.result > 0
    requires k == Accepts(sink, |p + g.bytes|) && k >= 0
    requires Delivered(Copy(g.rest, After(sink), (p + g.bytes)[k..], block), g.rest, (p + g.bytes)[k..])
    ensures Delivered(Copy(src, sink, p, block), src, p)
  {
    CollectContent(src, block - |p|, 0);
    var c := Copy(g.rest, After(sink), (p + g.bytes)[k..], block);
    assert Copy(src, sink, p, block) == WithSteps([Got(g.bytes), Wrote((p + g.bytes)[..k])], c);
    DeliveredAfterWrite(c, src, g.rest, p, g.bytes, k);
  }

  lemma CopyEnded(src: seq<Chunk>, sink: seq<Reply>, p: seq<Byte>, block: nat)
    requires |p| < block && Gather(src, block - |p|).result == 0
    ensures Delivered(Copy(src, sink, p, block), src, p)
  {
    CollectContent(src, block - |p|, 0);
    FlushOutcome([], sink, p);
    DeliveredAfterEnd(Flush([], sink, p), p);
  }

  lemma CopyWriteFailed(src: seq<Chunk>, sink: seq<Reply>, p: seq<Byte>, block: nat)
    requires |p| < block && Gather(src, block - |p|).result > 0
    requires Accepts(sink, |p + Gather(src, block - |p|).bytes|) < 0
    ensures Delivered(Copy(src, sink, p, block), src, p)
  {
    var g := Gather(src, block - |p|);
    TwoSteps(Got(g.bytes), WriteFailed([]));
    OneStep(Got(g.bytes));
    OneStep(WriteFailed([]));
  }

  // ----------------------------------------------------------- response

  /** struct gemini_response: the TLS session read from, the socket and the
      URL requested, with the resources its closing released. */
  class GeminiResponse {
    var ssl: Source?
    var fd: int
    var url: Url.GeminiUrl?
    ghost var released: seq<Resource>

    constructor (ssl: Source?, fd: int, url: Url.GeminiUrl?)
      ensures this.ssl == ssl && this.fd == fd && this.url == url && released == []
    {
      this.ssl := ssl;
      this.fd := fd;
      this.url := url;
      released := [];
    }

    /** gemini_response_read into buf[at..at + n], with nread set to 0 before
      the loop: the read that Gather describes. */
    method Read(buf: array<Byte>, at: nat, n: nat) returns (r: int)
      requires ssl != null && at + n <= buf.Length
      modifies ssl, buf
      ensures var g := Gather(old(ssl.script), n);
        && r == g.result && ssl.script == g.rest
        && buf[..at] == old(buf[..at])
        && buf[at..at + |g.bytes|] == g.bytes
        && buf[at + |g.bytes|..] == old(buf[at + |g.bytes|..])
    {
      ghost var before := buf[..];
      r := ReadFrom(ssl, buf, at, n);
      LayoutSlices(buf[..], before, at, Gather(old(ssl.script), n).bytes);
    }

    /** The loop of gemini_response_read on the session src. */
    static method ReadFrom(src: Source, buf: array<Byte>, at: nat, n: nat) returns (r: int)
      requires at + n <= buf.Length
      modifies src, buf
      ensures var g := Gather(old(src.script), n);
        r == g.result && src.script == g.rest && Holds(buf, old(buf[..]), at, g.bytes)
    {
      var ntotal: nat := 0;
      var left: nat := n;
      var nread: int := 0;
      ghost var orig := buf[..];
      ghost var acc: seq<Byte> := [];
      ghost var cur := src.script;
      ghost var whole := Gather(cur, n);
      assert Joined(0, [], whole) == whole;
      while left > 0
        invariant ntotal + left == n && |acc| == ntotal && nread >= 0
        invariant Holds(buf, orig, at, acc) && src.script == cur
        invariant Tracks(whole, ntotal, acc, cur, left, nread)
        decreases left
      {
        var got;
        ghost var rd;
        got, rd := ReadOnce(src, buf, at, ntotal, left, orig, acc);
        GatherAdvances(whole, ntotal, acc, cur, left, nread, rd, got, rd.rest);
        acc := acc + rd.bytes;
        cur := rd.rest;
        nread := got;
        if got <= 0 {
          break;
        }
        left := left - got;
        ntotal := ntotal + got;
      }
      if left == 0 {
        GatherFull(whole, ntotal, acc, cur, nread);
      }
      if nread < 0 {
        return nread;
      }
      r := ntotal;
    }

    /** One SSL_read of gemini_response_read, into buf after the ntotal bytes
      acc already read to buf[at..]: the read rd. */
    static method ReadOnce(src: Source, buf: array<Byte>, at: nat, ntotal: nat, left: nat,
                           ghost orig: seq<Byte>, ghost acc: seq<Byte>)
      returns (got: int, ghost rd: Pulled)
      requires 0 < left && at + ntotal + left <= buf.Length
      requires |acc| == ntotal && Holds(buf, orig, at, acc)
      modifies src, buf
      ensures rd == Pull(old(src.script), left) && got == rd.got && src.script == rd.rest
      ensures Holds(buf, orig, at, acc + rd.bytes)
    {
      rd := Pull(src.script, left);
      got := src.Read(buf, at + ntotal, left);
      HoldsAfterRead(old(buf[..]), buf[..], orig, at, acc, rd.bytes);
    }

    /** gemini_response_stream to the descriptor dst through a buffer of
      block bytes, as Copy describes. */
    method Stream(dst: Sink, block: nat) returns (r: int)
      requires ssl != null
      modifies ssl, dst
      ensures var o := Copy(old(ssl.script), old(dst.script), [], block);
        && r == o.result && ssl.script == o.src && dst.script == o.sink
        && dst.received == old(dst.received) + SentBytes(o.steps)
    {
      r := StreamFrom(ssl, dst, block);
    }

    /** The two loops of gemini_response_stream on the session src. */
    static method StreamFrom(src: Source, dst: Sink, block: nat) returns (r: int)
      modifies src, dst
      ensures var o := Copy(old(src.script), old(dst.script), [], block);
        && r == o.result && src.script == o.src && dst.script == o.sink
        && dst.received == old(dst.received) + SentBytes(o.steps)
    {
      ghost var whole := Copy(src.script, dst.script, [], block);
      var buf := new Byte[block](_ => NUL);
      var n: nat := 0;
      var nread: int;
      ghost var done: seq<Step> := [];
      ghost var p: seq<Byte> := [];
      assert WithSteps([], whole) == whole;
      while true
        invariant n <= block == buf.Length && p == buf[..n]
        invariant dst.received == old(dst.received) + SentBytes(done)
        invariant whole == WithSteps(done, Copy(src.script, dst.script, p, block))
        decreases Size(src.script)
      {
        var nwrit;
        nread, nwrit, n, done, p := CopyTurn(src, dst, buf, n, p, old(dst.received), done, whole);
        if nread <= 0 {
          break;
        }
        if nwrit < 0 {
          return nwrit;
        }
      }
      if nread < 0 {
        return nread;
      }
      r := FlushAll(dst, buf, n, p, src.script, old(dst.received), done, whole);
    }

    /** One turn of the read loop of gemini_response_stream, with the steps
      done so far.  A write failure is reported as a negative nwrit; the
      whole copy then ends with the steps done. */
    static method CopyTurn(src: Source, dst: Sink, buf: array<Byte>, n: nat, ghost p: seq<Byte>,
                           ghost base: seq<Byte>, ghost done: seq<Step>, ghost whole: Relayed)
      returns (nread: int, nwrit: int, m: nat, ghost done': seq<Step>, ghost p': seq<Byte>)
      requires n <= buf.Length && p == buf[..n]
      requires dst.received == base + SentBytes(done)
      requires whole == WithSteps(done, Copy(src.script, dst.script, p, buf.Length))
      modifies src, dst, buf
      ensures m <= buf.Length && p' == buf[..m]
      ensures dst.received == base + SentBytes(done')
      ensures nread > 0 && nwrit >= 0 ==> Size(src.script) < old(Size(src.script))
      ensures nread > 0 && nwrit >= 0 ==> whole == WithSteps(done', Copy(src.script, dst.script, p', buf.Length))
      ensures nread <= 0 ==> nwrit == 0
      ensures nread == 0 ==> whole == WithSteps(done', Flush(src.script, dst.script, p'))
      ensures nread < 0 ==> whole == Relayed(nread, done', src.script, dst.script)
      ensures nwrit < 0 ==> nwrit == whole.result && src.script == whole.src && dst.script == whole.sink
                            && done' == whole.steps
    {
      ghost var s0 := dst.script;
      ghost var block := buf.Length;
      ghost var g, q;
      nread, nwrit, m, g, q := ReadTurn(src, dst, buf, n, p);
      if nread <= 0 {
        TurnEnded(whole, done, old(src.script), s0, p, block, g);
        p' := p;
        done' := done + [if nread < 0 then ReadFailed else Ended];
        return;
      }
      if nwrit < 0 {
        TurnWriteFailed(whole, done, old(src.script), s0, p, block, g, q, nwrit, base);
        done' := whole.steps;
        p' := buf[..m];
        return;
      }
      TurnWrote(whole, done, old(src.script), s0, p, block, g, q, nwrit, base);
      done' := done + [Got(g.bytes), Wrote(q[..nwrit])];
      p' := q[nwrit..];
    }

    /** One turn of the read loop of gemini_response_stream: read after the
      n bytes p held, make one write of all that is held, move what was not
      taken to the front of the buffer. */
    static method ReadTurn(src: Source, dst: Sink, buf: array<Byte>, n: nat, ghost p: seq<Byte>)
      returns (nread: int, nwrit: int, m: nat, ghost g: Gathered, ghost q: seq<Byte>)
      requires n <= buf.Length && p == buf[..n]
      modifies src, dst, buf
      ensures m <= buf.Length
      ensures g == Gather(old(src.script), buf.Length - n) && nread == g.result && src.script == g.rest
      ensures nread <= 0 ==> nwrit == 0 && m == n && buf[..n] == p
                             && dst.script == old(dst.script) && dst.received == old(dst.received)
      ensures nread > 0 ==> q == p + g.bytes && |q| > 0 && nwrit == Accepts(old(dst.script), |q|)
                            && dst.script == After(old(dst.script))
                            && dst.received == old(dst.received) + (if nwrit < 0 then [] else q[..nwrit])
      ensures nread > 0 && nwrit >= 0 ==> m == |q| - nwrit && buf[..m] == q[nwrit..]
    {
      nread, m, g, q := FillFrom(src, buf, n, p);
      nwrit := 0;
      if nread <= 0 {
        return;
      }
      nwrit, m := Drain(dst, buf, m, q);
    }

    /** The read of one turn of gemini_response_stream: fill the buffer after
      the n bytes p it holds. */
    static method FillFrom(src: Source, buf: array<Byte>, n: nat, ghost p: seq<Byte>)
      returns (nread: int, m: nat, ghost g: Gathered, ghost q: seq<Byte>)
      requires n <= buf.Length && p == buf[..n]
      modifies src, buf
      ensures g == Gather(old(src.script), buf.Length - n) && nread == g.result && src.script == g.rest
      ensures nread <= 0 ==> m == n && buf[..n] == p
      ensures nread > 0 ==> q == p + g.bytes && 0 < m == |q| <= buf.Length && buf[..m] == q
    {
      g := Gather(src.script, buf.Length - n);
      ghost var before := buf[..];
      nread := ReadFrom(src, buf, n, buf.Length - n);
      LayoutSlices(buf[..], before, n, g.bytes);
      m := n;
      q := [];
      if nread <= 0 {
        return;
      }
      q := buf[..n + nread];
      SliceJoin(buf[..], n, n + nread);
      m := n + nread;
    }

    /** The write of one turn of gemini_response_stream: offer the m bytes q
      held to dst once, then move what it did not take to the front. */
    static method Drain(dst: Sink, buf: array<Byte>, m: nat, ghost q: seq<Byte>) returns (nwrit: int, m': nat)
      requires 0 < m <= buf.Length && q == buf[..m]
      modifies dst, buf
      ensures nwrit == Accepts(old(dst.script), m) && dst.script == After(old(dst.script))
      ensures dst.received == old(dst.received) + (if nwrit < 0 then [] else q[..nwrit])
      ensures m' <= buf.Length
      ensures nwrit >= 0 ==> m' == m - nwrit && buf[..m'] == q[nwrit..]
    {
      m' := m;
      nwrit := dst.Put(buf[..m]);
      if nwrit < 0 {
        return;
      }
      MoveDown(buf, nwrit, m);
      m' := m - nwrit;
    }

    /** The flush loop of gemini_response_stream: write the n bytes held
      until none is left, ending the copy whole that the steps done have
      begun. */
    static method FlushAll(dst: Sink, buf: array<Byte>, n: nat, ghost held: seq<Byte>, ghost rest: seq<Chunk>,
                    ghost base: seq<Byte>, ghost done0: seq<Step>, ghost whole: Relayed) returns (r: int)
      requires n <= buf.Length && held == buf[..n]
      requires dst.received == base + SentBytes(done0)
      requires whole == WithSteps(done0, Flush(rest, dst.script, held))
      modifies dst, buf
      ensures r == whole.result && dst.script == whole.sink && rest == whole.src
      ensures dst.received == base + SentBytes(whole.steps)
    {
      ghost var p := held;
      ghost var done := done0;
      var m: nat := n;
      while m > 0
        invariant m <= buf.Length && p == buf[..m]
        invariant dst.received == base + SentBytes(done)
        invariant whole == WithSteps(done, Flush(rest, dst.script, p))
        decreases m
      {
        TurnFlushed(whole, done, rest, dst.script, p);
        ghost var k := Accepts(dst.script, |p|);
        Regroup(base, SentBytes(done), if k < 0 then [] else p[..k]);
        var nwrit;
        nwrit, m := FlushTurn(dst, buf, m, p);
        if nwrit < 0 {
          return nwrit;
        }
        done := done + [Wrote(p[..nwrit])];
        p := p[nwrit..];
      }
      assert p == [] && done + [] == done;
      r := 0;
    }

    /** One turn of the flush loop of gemini_response_stream. */
    static method FlushTurn(dst: Sink, buf: array<Byte>, n: nat, ghost p: seq<Byte>) returns (nwrit: int, m: nat)
      requires 0 < n <= buf.Length && p == buf[..n]
      modifies dst, buf
      ensures nwrit == Accepts(old(dst.script), n) && dst.script == After(old(dst.script))
      ensures dst.received == old(dst.received) + (if nwrit < 0 then [] else p[..nwrit])
      ensures nwrit >= 0 ==> m == n - nwrit && buf[..m] == p[nwrit..]
    {
      m := n;
      nwrit := dst.Put(buf[..n]);
      if nwrit < 0 {
        return;
      }
      MoveDown(buf, nwrit, n);
      m := n - nwrit;
    }

    /** gemini_response_close: release the session, the socket and the URL,
      each only if still held. */
    method Close()
      modifies this
      ensures ssl == null && url == null && fd == ClosedFd(old(fd))
      ensures released == old(released) + Releases(old(ssl) != null, old(fd), old(url) != null)
      ensures ReleasedOnce(old(released), old(ssl) != null, old(fd), old(url) != null)
          ==> ReleasedOnce(released, false, fd, false)
    {
      if ReleasedOnce(released, ssl != null, fd, url != null) {
        CloseReleasesOnce(released, ssl != null, fd, url != null);
      }
      ghost var was := released;
      ghost var a: seq<Resource> := if ssl != null then [TlsSession] else [];
      ghost var b: seq<Resource> := if fd >= 0 then [Socket(fd)] else [];
      ghost var c: seq<Resource> := if url != null then [UrlStorage] else [];
      assert Releases(ssl != null, fd, url != null) == (a + b) + c;
      Regroup(was, a, b);
      Regroup(was, a + b, c);
      assert was + [] == was;
      if ssl != null {
        released := released + [TlsSession];
        ssl := null;
      }
      if fd >= 0 {
        released := released + [Socket(fd)];
        fd := -1;
      }
      if url != null {
        released := released + [UrlStorage];
        url := null;
      }
    }
  }

  /** buf agrees with orig outside buf[at..at + |acc|], which holds acc. */
  ghost predicate Holds(buf: array<Byte>, orig: seq<Byte>, at: nat, acc: seq<Byte>)
    reads buf
  {
    Layout(buf[..], orig, at, acc)
  }

  ghost predicate Layout(a: seq<Byte>, orig: seq<Byte>, at: nat, acc: seq<Byte>) {
    |a| == |orig| && at + |acc| <= |a| &&
    a[..at] == orig[..at] && a[at..at + |acc|] == acc && a[at + |acc|..] == orig[at + |acc|..]
  }

  lemma LayoutSlices(a: seq<Byte>, orig: seq<Byte>, at: nat, acc: seq<Byte>)
    requires Layout(a, orig, at, acc)
    ensures |a| == |orig| && at + |acc| <= |a|
    ensures a[..at] == orig[..at] && a[at..at + |acc|] == acc && a[at + |acc|..] == orig[at + |acc|..]
  {
  }

  /** A read of b right after acc extends what the buffer holds. */
  lemma HoldsAfterRead(before: seq<Byte>, after: seq<Byte>, orig: seq<Byte>, at: nat, acc: seq<Byte>, b: seq<Byte>)
    requires Layout(before, orig, at, acc) && at + |acc| + |b| <= |before| == |after|
    requires after[..at + |acc|] == before[..at + |acc|]
    requires after[at + |acc|..at + |acc| + |b|] == b
    requires after[at + |acc| + |b|..] == before[at + |acc| + |b|..]
    ensures Layout(after, orig, at, acc + b)
  {
    var j := at + |acc|;
    assert after[..at] == after[..j][..at];
    assert after[at..j] == after[..j][at..];
    assert before[..at] == before[..j][..at];
    assert before[at..j] == before[..j][at..];
    assert after[at..j + |b|] == after[at..j] + after[j..j + |b|];
    assert after[j + |b|..] == before[j..][|b|..];
  }

  /** whole is what the loop of gemini_response_read gives once ntotal bytes
      acc are read and the loop goes on with src, left and last. */
  ghost predicate Tracks(whole: Gathered, ntotal: nat, acc: seq<Byte>, src: seq<Chunk>, left: nat, last: int) {
    whole == Joined(ntotal, acc, Collect(src, left, last))
  }

  /** The loop of gemini_response_read after one more SSL_read, which
      returned got and left the session's script at rest. */
  lemma GatherAdvances(whole: Gathered, ntotal: nat, acc: seq<Byte>, src: seq<Chunk>, left: nat, last: int,
                       rd: Pulled, got: int, rest: seq<Chunk>)
    requires left > 0 && rd == Pull(src, left) && got == rd.got && rest == rd.rest
    requires Tracks(whole, ntotal, acc, src, left, last)
    ensures |rd.bytes| == (if got > 0 then got else 0)
    ensures got <= 0 ==> acc + rd.bytes == acc && whole == Gathered(if got < 0 then got else ntotal, acc, rest)
    ensures got > 0 ==> got <= left
    ensures got > 0 ==> Tracks(whole, ntotal + got, acc + rd.bytes, rest, left - got, got)
  {
    CollectOnce(src, left, last, rd);
    if got > 0 {
      JoinedTwice(ntotal, acc, rd.got, rd.bytes, Collect(rd.rest, left - rd.got, rd.got));
    } else {
      assert acc + [] == acc;
    }
  }

  /** The loop of gemini_response_read once the buffer is full. */
  lemma GatherFull(whole: Gathered, ntotal: nat, acc: seq<Byte>, src: seq<Chunk>, last: int)
    requires last >= 0 && Tracks(whole, ntotal, acc, src, 0, last)
    ensures whole == Gathered(ntotal, acc, src)
  {
    assert acc + [] == acc;
  }

  /** One SSL_read of the loop of gemini_response_read. */
  lemma CollectOnce(src: seq<Chunk>, room: nat, last: int, rd: Pulled)
    requires room > 0 && rd == Pull(src, room)
    ensures rd.got <= 0 ==> Collect(src, room, last) == Gathered(rd.got, [], rd.rest)
    ensures rd.got > 0 ==> Collect(src, room, last) == Joined(rd.got, rd.bytes, Collect(rd.rest, room - rd.got, rd.got))
  {
  }

  /** Two stretches of a read, one after the other. */
  lemma JoinedTwice(i: nat, x: seq<Byte>, k: nat, y: seq<Byte>, g: Gathered)
    ensures Joined(i, x, Joined(k, y, g)) == Joined(i + k, x + y, g)
  {
    Regroup(x, y, g.bytes);
  }
}
