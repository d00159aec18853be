/** The server side of one exchange (request.c): writing the status line,
    writing a buffer until the TLS session has taken all of it, copying a
    file to the session through a fixed buffer, and releasing the request. */
module Request {
  import opened Bytes
  import opened Io
  import Url

  /** GEMINI_MAX_RESPONSE: the status line buffer, terminating NUL included. */
  const MaxResponse: nat := 256

  /** The bytes of meta text that fit beside "XX ", CRLF and the NUL. */
  const MetaRoom: nat := MaxResponse - 3 - 2 - 1

  // ---------------------------------------------------------- status line

  /** C's int division, which truncates toward zero. */
  function CQuot(a: int, b: Pos): (q: int)
    ensures a >= 0 ==> q == a / b
    ensures a < 0 ==> q == -((-a) / b)
  {
    if a >= 0 then a / b else -((-a) / b)
  }

  /** C's remainder, which takes the sign of the dividend. */
  function CRem(a: int, b: Pos): (r: int)
    ensures -(b as int) < r < b
    ensures a >= 0 ==> r >= 0
    ensures a <= 0 ==> r <= 0
    ensures CQuot(a, b) * b + r == a
  {
    if a >= 0 then a % b else -((-a) % b)
  }

  function Digit(d: int): (c: Byte)
    requires -9 <= d <= 9
    ensures c as int - '0' as int == d
  {
    ('0' as int + d) as char
  }

  predicate IsDigit(c: Byte) {
    '0' <= c <= '9'
  }

  function MetaCut(meta: seq<Byte>): (m: nat)
    ensures m <= |meta| && m <= MetaRoom
    ensures m == |meta| || m == MetaRoom
  {
    if |meta| < MetaRoom then |meta| else MetaRoom
  }

  /** The status line sent for status and meta: the tens digit and the units
      digit of status, a space, meta cut to MetaRoom bytes, CRLF. */
  function StatusLine(status: int, meta: seq<Byte>): (line: seq<Byte>)
    ensures |line| == 5 + MetaCut(meta) <= MaxResponse - 1
    ensures line[2] == ' ' && line[|line| - 2..] == "\r\n"
  {
    [Digit(CRem(CQuot(status, 10), 10)), Digit(CRem(status, 10)), ' ']
      + meta[..MetaCut(meta)] + "\r\n"
  }

  datatype Status = Status(code: nat, meta: seq<Byte>)

  /** How a client reads a status line back: two digits, a space, the meta
      text, CRLF. */
  function ReadStatus(line: seq<Byte>): (r: Option<Status>)
    ensures r.Some? ==> r.value.code < 100 && |r.value.meta| == |line| - 5
  {
    if |line| >= 5 && IsDigit(line[0]) && IsDigit(line[1]) && line[2] == ' '
       && line[|line| - 2] == '\r' && line[|line| - 1] == '\n'
    then Some(Status(10 * (line[0] as int - '0' as int) + (line[1] as int - '0' as int), line[3..|line| - 2]))
    else None
  }

  /** A status line names the last two digits of a non-negative status and
      the meta text cut to what fits. */
  lemma StatusLineReads(status: int, meta: seq<Byte>)
    requires status >= 0
    ensures ReadStatus(StatusLine(status, meta)) == Some(Status(status % 100, meta[..MetaCut(meta)]))
  {
    var line := StatusLine(status, meta);
    assert line[0] as int - '0' as int == (status / 10) % 10;
    assert line[1] as int - '0' as int == status % 10;
    assert line[3..|line| - 2] == meta[..MetaCut(meta)];
    assert 10 * ((status / 10) % 10) + status % 10 == status % 100 by {
      TensAndUnits(status);
    }
  }

  lemma TensAndUnits(a: nat)
    ensures 10 * ((a / 10) % 10) + a % 10 == a % 100
  {
    var q := a / 100;
    var r := a % 100;
    assert a == 100 * q + r;
    assert a / 10 == 10 * q + r / 10;
    assert (a / 10) % 10 == r / 10;
    assert a % 10 == r % 10;
  }

  /** A negative status whose magnitude is not a multiple of 100 yields a
      digit byte below '0', so the line does not read back as a status line. */
  lemma NegativeStatusUnreadable(status: int, meta: seq<Byte>)
    requires status < 0 && (-status) % 100 != 0
    ensures ReadStatus(StatusLine(status, meta)).None?
  {
    var n := -status;
    assert CRem(status, 10) == -(n % 10);
    assert CQuot(status, 10) == -(n / 10);
    assert CRem(CQuot(status, 10), 10) == -((n / 10) % 10);
    TensAndUnits(n);
    var line := StatusLine(status, meta);
    assert line[0] as int - '0' as int == -((n / 10) % 10);
    assert line[1] as int - '0' as int == -(n % 10);
  }

  // ------------------------------------------------------------ writing

  /** The outcome of writing a buffer out: the result, the bytes the session
      took, and its script left. */
  datatype Sent = Sent(result: int, bytes: seq<Byte>, left: seq<Reply>)

  /** The outcome o of the rest of a write, after k bytes pre went out first. */
  function Resume(k: nat, pre: seq<Byte>, o: Sent): (r: Sent)
    ensures r.bytes == pre + o.bytes && r.left == o.left
    ensures r.result == (if o.result < 0 then -1 else k + o.result)
  {
    Sent(if o.result < 0 then -1 else k + o.result, pre + o.bytes, o.left)
  }

  /** gemini_request_write, with buf moving past the bytes taken:
      one write per reply until nothing remains or a reply fails. */
  function Transfer(script: seq<Reply>, data: seq<Byte>): (o: Sent)
    ensures o.result == -1 || (o.result == |data| && o.bytes == data)
    ensures o.bytes <= data
    ensures o.result == -1 ==> |o.bytes| < |data|
    decreases |data|
  {
    if data == [] then Sent(0, [], script)
    else
      var k := Accepts(script, |data|);
      if k < 0 then Sent(-1, [], After(script))
      else Resume(k, data[..k], Transfer(After(script), data[k..]))
  }

  /** A write fails exactly at the first failing reply: the replies it used
      are all takes but the last, which refused. */
  lemma {:induction false} TransferStopsAtRefusal(script: seq<Reply>, data: seq<Byte>)
    requires Transfer(script, data).result < 0
    ensures var o := Transfer(script, data);
      exists c :: 0 < c <= |script| && script[c - 1] == Refuse && o.left == script[c..]
        && forall j :: 0 <= j < c - 1 ==> script[j].Take?
    decreases |data|
  {
    var o := Transfer(script, data);
    var k := Accepts(script, |data|);
    if k < 0 {
      assert script[0] == Refuse && o.left == script[1..];
    } else {
      TransferStopsAtRefusal(After(script), data[k..]);
      var c :| 0 < c <= |After(script)| && After(script)[c - 1] == Refuse && o.left == After(script)[c..]
        && forall j :: 0 <= j < c - 1 ==> After(script)[j].Take?;
      assert script != [] && script[0].Take?;
      assert script[c] == Refuse && o.left == script[c + 1..];
      forall j | 0 <= j < c
        ensures script[j].Take?
      {
        if j > 0 {
          assert script[j] == After(script)[j - 1];
        }
      }
    }
  }

  /** A session that never refuses takes the whole buffer. */
  lemma {:induction false} TransferWithoutRefusal(script: seq<Reply>, data: seq<Byte>)
    requires forall j :: 0 <= j < |script| ==> script[j].Take?
    ensures Transfer(script, data).result == |data|
    ensures Transfer(script, data).bytes == data
    decreases |data|
  {
    if data != [] {
      var k := Accepts(script, |data|);
      assert k > 0;
      TransferWithoutRefusal(After(script), data[k..]);
    }
  }

  /** gemini_request_write as written: after a partial write of k out of n
      bytes, n drops to n - k and buf steps forward by that new n
      rather than by k.  None: the next write would read past the buffer. */
  function TransferAsWritten(script: seq<Reply>, data: seq<Byte>, off: nat, n: nat, total: nat): (r: Option<Sent>)
    ensures r.Some? && r.value.result >= 0 ==> r.value.result == total + n
    decreases n
  {
    if n == 0 then Some(Sent(total, [], script))
    else if off + n > |data| then None
    else
      var k := Accepts(script, n);
      if k < 0 then Some(Sent(-1, [], After(script)))
      else match TransferAsWritten(After(script), data, off + (n - k), n - k, total + k)
        case None => None
        case Some(o) => Some(o.(bytes := data[off..off + k] + o.bytes))
  }

  /** When the first write takes everything, the slip does not show. */
  lemma AsWrittenOneShot(script: seq<Reply>, data: seq<Byte>)
    requires data != [] && Accepts(script, |data|) == |data|
    ensures TransferAsWritten(script, data, 0, |data|, 0) == Some(Transfer(script, data))
  {
    assert data[0..|data|] == data;
  }

  /** Ten bytes taken six, then four, at a time: the second write resends
      bytes 4 and 5 and never sends bytes 8 and 9, yet reports success. */
  lemma AsWrittenResendsBytes(data: seq<Byte>)
    requires data == "0123456789"
    ensures TransferAsWritten([Take(6), Take(4)], data, 0, 10, 0) == Some(Sent(10, "0123454567", []))
    ensures Transfer([Take(6), Take(4)], data) == Sent(10, data, [])
  {
    var s: seq<Reply> := [Take(6), Take(4)];
    assert After(s) == [Take(4)] && After([Take(4)]) == [];
    assert TransferAsWritten([], data, 4, 0, 10) == Some(Sent(10, [], []));
    assert Accepts([Take(4)], 4) == 4;
    assert data[4..8] == "4567" && data[4..8] + [] == "4567";
    assert TransferAsWritten([Take(4)], data, 4, 4, 6) == Some(Sent(10, "4567", []));
    assert data[4..8] == "4567";
    assert data[0..6] + "4567" == "0123454567";
    assert data[..6] == "012345" && data[6..] == "6789";
    assert Transfer([], data[6..][4..]) == Sent(0, [], []);
    assert Transfer([Take(4)], data[6..]) == Sent(4, "6789", []);
    assert data[..6] + "6789" == data;
  }

  /** Ten bytes of which the first write takes three: the second write is
      offered seven bytes starting at offset 7, past the end of the buffer. */
  lemma AsWrittenOverruns(data: seq<Byte>)
    requires data == "0123456789"
    ensures TransferAsWritten([Take(3)], data, 0, 10, 0).None?
  {
    assert TransferAsWritten([], data, 7, 7, 3).None?;
  }

  /** One write of k of the bytes a[at..n] in the loop of gemini_request_write,
      within the transfer whole. */
  lemma WroteSome(a: seq<Byte>, at: nat, k: nat, n: nat, whole: Sent, sent0: seq<Reply>)
    requires at < n <= |a| && 0 < k
    requires whole == Resume(at, a[..at], Transfer(sent0, a[at..n]))
    requires k == Accepts(sent0, n - at)
    ensures at + k <= n
    ensures whole == Resume(at + k, a[..at + k], Transfer(After(sent0), a[at + k..n]))
  {
    var o := Transfer(After(sent0), a[at + k..n]);
    assert Transfer(sent0, a[at..n]) == Resume(k, a[at..at + k], o) by {
      SliceOfSlice(a, at, n, k);
      TransferOnce(sent0, a[at..n], k);
    }
    SliceJoin(a, at, at + k);
    ResumeShift(whole, at, a[..at], k, a[at..at + k], o, a[..at + k]);
  }

  lemma ResumeShift(whole: Sent, i: nat, x: seq<Byte>, k: nat, y: seq<Byte>, o: Sent, xy: seq<Byte>)
    requires whole == Resume(i, x, Resume(k, y, o)) && xy == x + y
    ensures whole == Resume(i + k, xy, o)
  {
    ResumeTwice(i, x, k, y, o);
  }

  /** A write of a[at..n] that was refused ends the transfer whole. */
  lemma WriteRefused(a: seq<Byte>, at: nat, n: nat, whole: Sent, sent0: seq<Reply>)
    requires at < n <= |a|
    requires whole == Resume(at, a[..at], Transfer(sent0, a[at..n]))
    requires Accepts(sent0, n - at) < 0
    ensures whole == Sent(-1, a[..at], After(sent0))
  {
    assert a[..at] + [] == a[..at];
  }

  /** A transfer whose every byte went out. */
  lemma TransferDone(whole: Sent, a: seq<Byte>, left: seq<Reply>)
    requires whole == Resume(|a|, a[..|a|], Transfer(left, a[|a|..|a|]))
    ensures whole == Sent(|a|, a, left)
  {
    assert a[|a|..|a|] == [] && a[..|a|] == a && a + [] == a;
  }

  /** The first write of a transfer took k bytes. */
  lemma TransferOnce(script: seq<Reply>, data: seq<Byte>, k: nat)
    requires data != [] && 0 < k && k == Accepts(script, |data|)
    ensures Transfer(script, data) == Resume(k, data[..k], Transfer(After(script), data[k..]))
  {
  }

  /** What the session holds after one more write of k bytes of a[at..n]. */
  lemma SentMore(base: seq<Byte>, a: seq<Byte>, at: nat, k: nat, n: nat)
    requires at + k <= n <= |a|
    ensures base + a[..at] + a[at..n][..k] == base + a[..at + k]
  {
    SliceOfSlice(a, at, n, k);
    SliceJoin(a, at, at + k);
    Regroup(base, a[..at], a[at..at + k]);
  }

  lemma ResumeTwice(i: nat, x: seq<Byte>, k: nat, y: seq<Byte>, o: Sent)
    ensures Resume(i, x, Resume(k, y, o)) == Resume(i + k, x + y, o)
  {
    assert x + (y + o.bytes) == (x + y) + o.bytes;
  }

  // ------------------------------------------------------------ streaming

  /** gemini_request_stream in the read loop: read into the rest of the
      block after the pending bytes p, write everything held, keep what was
      not taken. */
  function Copy(src: seq<Chunk>, sink: seq<Reply>, p: seq<Byte>, block: nat): (o: Relayed)
    requires |p| <= block
    decreases Size(src)
  {
    var rd := Pull(src, block - |p|);
    if rd.got < 0 then Relayed(rd.got, [ReadFailed], rd.rest, sink)
    else if rd.got == 0 then WithSteps([Ended], Flush(rd.rest, sink, p))
    else
      var q := p + rd.bytes;
      var w := Transfer(sink, q);
      if w.result < 0 then Relayed(w.result, [Got(rd.bytes), WriteFailed(w.bytes)], rd.rest, w.left)
      else WithSteps([Got(rd.bytes), Wrote(w.bytes)], Copy(rd.rest, w.left, q[w.result..], block))
  }

  /** gemini_request_stream after end of input: write until nothing is held. */
  function Flush(src: seq<Chunk>, sink: seq<Reply>, p: seq<Byte>): (o: Relayed)
    decreases |p|
  {
    if p == [] then Relayed(0, [], src, sink)
    else
      var w := Transfer(sink, p);
      if w.result < 0 then Relayed(w.result, [WriteFailed(w.bytes)], src, w.left)
      else WithSteps([Wrote(w.bytes)], Flush(src, w.left, p[w.result..]))
  }

  // One turn of each loop of gemini_request_stream, as Copy and Flush take it.

  lemma CopyUnfoldWrote(src: seq<Chunk>, sink: seq<Reply>, p: seq<Byte>, block: nat, got: seq<Byte>, rest: seq<Chunk>)
    requires |p| <= block
    requires Pull(src, block - |p|).got > 0
    requires got == Pull(src, block - |p|).bytes && rest == Pull(src, block - |p|).rest
    requires Transfer(sink, p + got).result >= 0
    ensures var w := Transfer(sink, p + got);
      |(p + got)[w.result..]| <= block
      && Copy(src, sink, p, block)
         == WithSteps([Got(got), Wrote((p + got)[..w.result])], Copy(rest, w.left, (p + got)[w.result..], block))
  {
    var q := p + got;
    assert q[..|q|] == q;
  }

  lemma CopyUnfoldWriteFailed(src: seq<Chunk>, sink: seq<Reply>, p: seq<Byte>, block: nat, got: seq<Byte>, rest: seq<Chunk>)
    requires |p| <= block
    requires Pull(src, block - |p|).got > 0
    requires got == Pull(src, block - |p|).bytes && rest == Pull(src, block - |p|).rest
    requires Transfer(sink, p + got).result < 0
    ensures var w := Transfer(sink, p + got);
      Copy(src, sink, p, block) == Relayed(-1, [Got(got), WriteFailed(w.bytes)], rest, w.left)
  {
  }

  lemma FlushUnfoldWrote(src: seq<Chunk>, sink: seq<Reply>, p: seq<Byte>)
    requires p != [] && Transfer(sink, p).result >= 0
    ensures var w := Transfer(sink, p);
      Flush(src, sink, p) == WithSteps([Wrote(p[..w.result])], Flush(src, w.left, p[w.result..]))
  {
    assert p[..|p|] == p;
  }

  /** The bookkeeping of one turn of the read loop that wrote successfully. */
  lemma TurnWrote(whole: Relayed, done: seq<Step>, src: seq<Chunk>, sink: seq<Reply>, p: seq<Byte>, block: nat,
                  rd: Pulled, q: seq<Byte>, w: Sent, base: seq<Byte>)
    requires |p| <= block
    requires whole == WithSteps(done, Copy(src, sink, p, block))
    requires rd == Pull(src, block - |p|) && rd.got > 0 && q == p + rd.bytes
    requires w == Transfer(sink, q) && w.result >= 0
    ensures |q[w.result..]| <= block && Size(rd.rest) < Size(src)
    ensures whole == WithSteps(done + [Got(rd.bytes), Wrote(q[..w.result])], Copy(rd.rest, w.left, q[w.result..], block))
    ensures base + SentBytes(done) + w.bytes == base + SentBytes(done + [Got(rd.bytes), Wrote(q[..w.result])])
  {
    CopyUnfoldWrote(src, sink, p, block, rd.bytes, rd.rest);
    WithStepsNest(done, [Got(rd.bytes), Wrote(q[..w.result])], Copy(rd.rest, w.left, q[w.result..], block));
    SentAfter(done, rd.bytes, q[..w.result], Wrote(q[..w.result]));
    Regroup(base, SentBytes(done), w.bytes);
  }

  /** The bookkeeping of one turn of the read loop whose write failed. */
  lemma TurnWriteFailed(whole: Relayed, done: seq<Step>, src: seq<Chunk>, sink: seq<Reply>, p: seq<Byte>, block: nat,
                        rd: Pulled, q: seq<Byte>, w: Sent, base: seq<Byte>)
    requires |p| <= block
    requires whole == WithSteps(done, Copy(src, sink, p, block))
    requires rd == Pull(src, block - |p|) && rd.got > 0 && q == p + rd.bytes
    requires w == Transfer(sink, q) && w.result < 0
    ensures whole.result == -1 && whole.src == rd.rest && whole.sink == w.left
    ensures whole.steps == done + [Got(rd.bytes), WriteFailed(w.bytes)]
    ensures base + SentBytes(done) + w.bytes == base + SentBytes(whole.steps)
  {
    CopyUnfoldWriteFailed(src, sink, p, block, rd.bytes, rd.rest);
    SentAfter(done, rd.bytes, w.bytes, WriteFailed(w.bytes));
    Regroup(base, SentBytes(done), w.bytes);
  }

  /** The bookkeeping of the end of the read loop. */
  lemma TurnEnded(whole: Relayed, done: seq<Step>, src: seq<Chunk>, sink: seq<Reply>, p: seq<Byte>, block: nat, rd: Pulled)
    requires |p| <= block
    requires whole == WithSteps(done, Copy(src, sink, p, block))
    requires rd == Pull(src, block - |p|) && rd.got <= 0
    ensures rd.got < 0 ==> whole == Relayed(rd.got, done + [ReadFailed], rd.rest, sink)
                           && SentBytes(done + [ReadFailed]) == SentBytes(done)
    ensures rd.got == 0 ==> whole == WithSteps(done + [Ended], Flush(rd.rest, sink, p))
                            && SentBytes(done + [Ended]) == SentBytes(done)
  {
    var rest := rd.rest;
    SentBytesAppend(done, [ReadFailed]);
    OneStep(ReadFailed);
    SentBytesAppend(done, [Ended]);
    OneStep(Ended);
    WithStepsNest(done, [Ended], Flush(rest, sink, p));
  }

  /** The bookkeeping of one turn of the flush loop. */
  lemma TurnFlushed(whole: Relayed, done: seq<Step>, src: seq<Chunk>, sink: seq<Reply>, p: seq<Byte>)
    requires whole == WithSteps(done, Flush(src, sink, p)) && p != []
    ensures var w := Transfer(sink, p);
      && (w.result >= 0 ==> whole == WithSteps(done + [Wrote(p[..w.result])], Flush(src, w.left, p[w.result..]))
                            && SentBytes(done + [Wrote(p[..w.result])]) == SentBytes(done) + w.bytes)
      && (w.result < 0 ==> whole.result == -1 && whole.src == src && whole.sink == w.left
                           && SentBytes(whole.steps) == SentBytes(done) + w.bytes)
  {
    var w := Transfer(sink, p);
    if w.result >= 0 {
      FlushUnfoldWrote(src, sink, p);
      WithStepsNest(done, [Wrote(p[..w.result])], Flush(src, w.left, p[w.result..]));
      SentBytesAppend(done, [Wrote(p[..w.result])]);
      OneStep(Wrote(p[..w.result]));
      assert p[..|p|] == p;
    } else {
      SentBytesAppend(done, [WriteFailed(w.bytes)]);
      OneStep(WriteFailed(w.bytes));
    }
  }

  /** Flushing sends what was held, or fails with -1 having sent part of it. */
  lemma FlushOutcome(src: seq<Chunk>, sink: seq<Reply>, p: seq<Byte>)
    ensures Flushed(Flush(src, sink, p), p)
  {
    if p != [] {
      var w := Transfer(sink, p);
      if w.result >= 0 {
        assert Flush(src, w.left, p[w.result..]) == Relayed(0, [], src, w.left);
      }
    }
  }

  /** The stream copier delivers exactly what the source holds, in order,
      when it returns 0; otherwise it returns -1 at its first failure and the
      session has taken a prefix of what was read. */
  lemma {:induction false} CopyOutcome(src: seq<Chunk>, sink: seq<Reply>, p: seq<Byte>, block: nat)
    requires |p| < block
    ensures Delivered(Copy(src, sink, p, block), src, p)
    decreases Size(src)
  {
    var rd := Pull(src, block - |p|);
    PullContent(src, block - |p|);
    if rd.got == 0 {
      CopyEnded(src, sink, p, block);
    } else if rd.got > 0 {
      var q := p + rd.bytes;
      var w := Transfer(sink, q);
      if w.result >= 0 {
        CopyOutcome(rd.rest, w.left, q[w.result..], block);
        CopyWrote(src, sink, p, block, rd, w);
      } else {
        CopyWriteFailed(src, sink, p, block);
      }
    } else {
      CopyReadFailed(src, sink, p, block);
    }
  }

  /** The converse of CopyOutcome: a source that never fails and a session
      that never refuses make the copier return 0, having sent what was held
      and then everything the source holds. */
  lemma {:induction false} CopySucceeds(src: seq<Chunk>, sink: seq<Reply>, p: seq<Byte>, block: nat)
    requires |p| < block && !BreaksOff(src) && NeverRefuses(sink)
    ensures Copy(src, sink, p, block).result == 0
    ensures SentBytes(Copy(src, sink, p, block).steps) == p + Content(src)
    decreases Size(src)
  {
    CopyOutcome(src, sink, p, block);
    var rd := Pull(src, block - |p|);
    PullContent(src, block - |p|);
    if rd.got == 0 {
      FlushSucceeds(rd.rest, sink, p);
    } else {
      var q := p + rd.bytes;
      TransferWithoutRefusal(sink, q);
      TransferLeftNoRefusal(sink, q);
      var w := Transfer(sink, q);
      assert q[w.result..] == [];
      CopySucceeds(rd.rest, w.left, [], block);
    }
  }

  /** A session that never refuses takes everything a flush holds. */
  lemma FlushSucceeds(src: seq<Chunk>, sink: seq<Reply>, p: seq<Byte>)
    requires NeverRefuses(sink)
    ensures Flush(src, sink, p).result == 0
  {
    if p != [] {
      TransferWithoutRefusal(sink, p);
      var w := Transfer(sink, p);
      assert p[w.result..] == [];
    }
  }

  /** What a write leaves of a script that never refuses never refuses. */
  lemma {:induction false} TransferLeftNoRefusal(script: seq<Reply>, data: seq<Byte>)
    requires NeverRefuses(script)
    ensures NeverRefuses(Transfer(script, data).left)
    decreases |data|
  {
    if data != [] {
      var k := Accepts(script, |data|);
      TransferLeftNoRefusal(After(script), data[k..]);
    }
  }

  /** A read of rd followed by a write w that took everything held, before
      a copy that delivered the rest. */
  lemma CopyWrote(src: seq<Chunk>, sink: seq<Reply>, p: seq<Byte>, block: nat, rd: Pulled, w: Sent)
    requires |p| < block && rd == Pull(src, block - |p|) && rd.got > 0
    requires w == Transfer(sink, p + rd.bytes) && w.result >= 0
    requires Delivered(Copy(rd.rest, w.left, (p + rd.bytes)[w.result..], block), rd.rest, (p + rd.bytes)[w.result..])
    ensures Delivered(Copy(src, sink, p, block), src, p)
  {
    var c := Copy(rd.rest, w.left, (p + rd.bytes)[w.result..], block);
    var head := [Got(rd.bytes), Wrote((p + rd.bytes)[..w.result])];
    assert Copy(src, sink, p, block) == WithSteps(head, c) by {
      CopyUnfoldWrote(src, sink, p, block, rd.bytes, rd.rest);
    }
    assert Delivered(WithSteps(head, c), src, p) by {
      PullTakes(src, block - |p|, rd);
      DeliveredAfterWrite(c, src, rd.rest, p, rd.bytes, w.result);
    }
  }

  lemma CopyReadFailed(src: seq<Chunk>, sink: seq<Reply>, p: seq<Byte>, block: nat)
    requires |p| < block && Pull(src, block - |p|).got < 0
    ensures Delivered(Copy(src, sink, p, block), src, p)
  {
    OneStep(ReadFailed);
  }

  lemma CopyEnded(src: seq<Chunk>, sink: seq<Reply>, p: seq<Byte>, block: nat)
    requires |p| < block && Pull(src, block - |p|).got == 0
    ensures Delivered(Copy(src, sink, p, block), src, p)
  {
    PullContent(src, block - |p|);
    FlushOutcome([], sink, p);
    DeliveredAfterEnd(Flush([], sink, p), p);
  }

  lemma CopyWriteFailed(src: seq<Chunk>, sink: seq<Reply>, p: seq<Byte>, block: nat)
    requires |p| < block && Pull(src, block - |p|).got > 0
    requires Transfer(sink, p + Pull(src, block - |p|).bytes).result < 0
    ensures Delivered(Copy(src, sink, p, block), src, p)
  {
    var rd := Pull(src, block - |p|);
    var w := Transfer(sink, p + rd.bytes);
    var o := Copy(src, sink, p, block);
    assert o.steps == [Got(rd.bytes), WriteFailed(w.bytes)];
    TwoSteps(Got(rd.bytes), WriteFailed(w.bytes));
    OneStep(Got(rd.bytes));
    OneStep(WriteFailed(w.bytes));
  }

  /** The status line of gemini_request_respond, built in a zeroed buffer of
      MaxResponse bytes: two digits and a space, strncpy of the meta text,
      strcat of CRLF, and strlen for the length to write. */
  method FormatStatus(status: int, meta: seq<Byte>) returns (buf: array<Byte>, len: nat)
    requires NoNul(meta)
    ensures fresh(buf) && buf.Length == MaxResponse
    ensures len <= buf.Length && buf[..len] == StatusLine(status, meta)
  {
    buf := new Byte[MaxResponse](_ => NUL);
    ghost var line := StatusLine(status, meta);
    ghost var head := line[..3 + MetaCut(meta)];
    WriteHead(buf, status, meta);
    var end := StrLen(buf, head);
    buf[end] := '\r';
    buf[end + 1] := '\n';
    buf[end + 2] := NUL;
    CrLfAppended(buf[..], head, line);
    len := StrLen(buf, line);
  }

  /** The two digits, the space and the meta text of the status line, in a
      zeroed buffer. */
  method WriteHead(buf: array<Byte>, status: int, meta: seq<Byte>)
    requires buf.Length == MaxResponse && NoNul(meta)
    requires forall k :: 0 <= k < buf.Length ==> buf[k] == NUL
    modifies buf
    ensures IsCString(buf[..], StatusLine(status, meta)[..3 + MetaCut(meta)])
  {
    buf[0] := Digit(CRem(CQuot(status, 10), 10));
    buf[1] := Digit(CRem(status, 10));
    buf[2] := ' ';
    ghost var b0 := buf[..];
    StrNCopy(buf, 3, meta, MetaRoom);
    ghost var line := StatusLine(status, meta);
    ghost var m := MetaCut(meta);
    assert buf[3 + m] == NUL by {
      if m == MetaRoom {
        assert buf[3 + MetaRoom..] == b0[3 + MetaRoom..];
        assert buf[3 + m] == buf[3 + MetaRoom..][0];
      }
    }
    assert buf[..3] == b0[..3] == line[..3];
    assert buf[..3 + m] == buf[..3] + buf[3..3 + m];
    assert line[..3 + m] == line[..3] + meta[..m];
    ghost var head := line[..3 + m];
    forall i | 3 <= i < |head|
      ensures head[i] != NUL
    {
      assert head[i] == meta[i - 3];
    }
  }

  /** CRLF and a NUL written after the C string head make the C string line. */
  lemma CrLfAppended(a: seq<Byte>, head: seq<Byte>, line: seq<Byte>)
    requires |head| + 2 < |a| && a[..|head|] == head && NoNul(head)
    requires a[|head|] == '\r' && a[|head| + 1] == '\n' && a[|head| + 2] == NUL
    requires line == head + "\r\n"
    ensures IsCString(a, line)
  {
    assert a[..|line|] == a[..|head|] + [a[|head|], a[|head| + 1]];
  }

  // ------------------------------------------------------------- request

  class GeminiRequest {
    var ssl: Sink?
    var fd: int
    var url: Url.GeminiUrl?
    ghost var released: seq<Resource>

    constructor (ssl: Sink?, fd: int, url: Url.GeminiUrl?)
      ensures this.ssl == ssl && this.fd == fd && this.url == url && released == []
    {
      this.ssl := ssl;
      this.fd := fd;
      this.url := url;
      released := [];
    }

    /** gemini_request_respond: format the status line and write it out. */
    method Respond(status: int, meta: seq<Byte>) returns (r: int)
      requires ssl != null && NoNul(meta)
      modifies ssl
      ensures var o := Transfer(old(ssl.script), StatusLine(status, meta));
        r == o.result && ssl.script == o.left && ssl.received == old(ssl.received) + o.bytes
    {
      var buf, len := FormatStatus(status, meta);
      r := Write(buf, len);
    }

    /** gemini_request_write, with buf moving past the bytes taken:
      the write of buf[..n] that Transfer describes. */
    method Write(buf: array<Byte>, n: nat) returns (r: int)
      requires ssl != null && n <= buf.Length
      modifies ssl
      ensures var o := Transfer(old(ssl.script), buf[..n]);
        r == o.result && ssl.script == o.left && ssl.received == old(ssl.received) + o.bytes
    {
      r := WriteTo(ssl, buf, n);
    }

    /** The loop of gemini_request_write on the session dst. */
    static method WriteTo(dst: Sink, buf: array<Byte>, n: nat) returns (r: int)
      requires n <= buf.Length
      modifies dst
      ensures var o := Transfer(old(dst.script), buf[..n]);
        r == o.result && dst.script == o.left && dst.received == old(dst.received) + o.bytes
    {
      ghost var data := buf[..n];
      ghost var whole := Transfer(dst.script, data);
      var ntotal: nat := 0;
      var left: nat := n;
      assert data[0..n] == data && data[..0] == [];
      assert [] + whole.bytes == whole.bytes;
      while left > 0
        invariant ntotal + left == n
        invariant dst.received == old(dst.received) + data[..ntotal]
        invariant whole == Resume(ntotal, data[..ntotal], Transfer(dst.script, data[ntotal..n]))
        decreases left
      {
        var nwrit;
        nwrit, ntotal, left := WriteOnce(dst, buf, n, ntotal, left, data, whole, old(dst.received));
        if nwrit < 0 {
          return -1;
        }
      }
      TransferDone(whole, data, dst.script);
      r := ntotal;
    }

    /** One SSL_write of gemini_request_write, of the left bytes after the
      ntotal already taken. */
    static method WriteOnce(dst: Sink, buf: array<Byte>, n: nat, ntotal: nat, left: nat, ghost data: seq<Byte>,
                            ghost whole: Sent, ghost base: seq<Byte>)
      returns (nwrit: int, ntotal': nat, left': nat)
      requires 0 < left && ntotal + left == n <= buf.Length && data == buf[..n]
      requires dst.received == base + data[..ntotal]
      requires whole == Resume(ntotal, data[..ntotal], Transfer(dst.script, data[ntotal..n]))
      modifies dst
      ensures nwrit < 0 ==> whole == Sent(-1, data[..ntotal], dst.script) && dst.received == base + data[..ntotal]
      ensures nwrit >= 0 ==> ntotal' + left' == n && left' < left && dst.received == base + data[..ntotal']
      ensures nwrit >= 0 ==> whole == Resume(ntotal', data[..ntotal'], Transfer(dst.script, data[ntotal'..n]))
    {
      ghost var s0 := dst.script;
      assert buf[ntotal..ntotal + left] == data[ntotal..n];
      nwrit := dst.Put(buf[ntotal..ntotal + left]);
      ntotal', left' := ntotal, left;
      if nwrit < 0 {
        WriteRefused(data, ntotal, n, whole, s0);
        assert base + data[..ntotal] + [] == base + data[..ntotal];
        return;
      }
      WroteSome(data, ntotal, nwrit, n, whole, s0);
      SentMore(base, data, ntotal, nwrit, n);
      ntotal', left' := ntotal + nwrit, left - nwrit;
    }

    /** gemini_request_stream: copy the source to the session through a
      buffer of block bytes, as Copy describes. */
    method Stream(src: Source, block: nat) returns (r: int)
      requires ssl != null
      modifies ssl, src
      ensures var o := Copy(old(src.script), old(ssl.script), [], block);
        && r == o.result && src.script == o.src && ssl.script == o.sink
        && ssl.received == old(ssl.received) + SentBytes(o.steps)
    {
      r := StreamTo(src, ssl, block);
    }

    /** The two loops of gemini_request_stream, from src to the session dst. */
    static method StreamTo(src: Source, dst: Sink, block: nat) returns (r: int)
      modifies dst, src
      ensures var o := Copy(old(src.script), old(dst.script), [], block);
        && r == o.result && src.script == o.src && dst.script == o.sink
        && dst.received == old(dst.received) + SentBytes(o.steps)
    {
      ghost var whole := Copy(src.script, dst.script, [], block);
      var buf := new Byte[block](_ => NUL);
      var n: nat := 0;
      var nread: int;
      ghost var done: seq<Step> := [];
      ghost var p: seq<Byte> := [];
      assert WithSteps([], whole) == whole;
      while true
        invariant n <= block == buf.Length && p == buf[..n]
        invariant dst.received == old(dst.received) + SentBytes(done)
        invariant whole == WithSteps(done, Copy(src.script, dst.script, p, block))
        decreases Size(src.script)
      {
        var nwrit;
        nread, nwrit, n, done, p := CopyTurn(src, dst, buf, n, p, old(dst.received), done, whole);
        if nread <= 0 {
          break;
        }
        if nwrit < 0 {
          return nwrit;
        }
      }
      if nread < 0 {
        return nread;
      }
      r := FlushAll(dst, buf, n, p, src.script, old(dst.received), done, whole);
    }

    /** The flush loop of gemini_request_stream: write the n bytes held until
      none is left, ending the copy whole that the steps done have begun. */
    static method FlushAll(dst: Sink, buf: array<Byte>, n: nat, ghost held: seq<Byte>, ghost rest: seq<Chunk>,
                    ghost base: seq<Byte>, ghost done0: seq<Step>, ghost whole: Relayed) returns (r: int)
      requires n <= buf.Length && held == buf[..n]
      requires dst.received == base + SentBytes(done0)
      requires whole == WithSteps(done0, Flush(rest, dst.script, held))
      modifies dst, buf
      ensures r == whole.result && dst.script == whole.sink && rest == whole.src
      ensures dst.received == base + SentBytes(whole.steps)
    {
      ghost var p := held;
      ghost var done := done0;
      var m: nat := n;
      while m > 0
        invariant m <= buf.Length && p == buf[..m]
        invariant dst.received == base + SentBytes(done)
        invariant whole == WithSteps(done, Flush(rest, dst.script, p))
        decreases m
      {
        TurnFlushed(whole, done, rest, dst.script, p);
        Regroup(base, SentBytes(done), Transfer(dst.script, p).bytes);
        var nwrit;
        nwrit, m := FlushTurn(dst, buf, m, p);
        if nwrit < 0 {
          return nwrit;
        }
        assert nwrit == |p| && m == 0;
        done := done + [Wrote(p[..nwrit])];
        p := p[nwrit..];
      }
      assert p == [] && done + [] == done;
      r := 0;
    }

    /** One turn of the read loop of gemini_request_stream, with the steps
      done so far: read, and on a successful read, write all that is held.
      A write failure is reported as a negative nwrit; the whole copy then
      ends with the steps done. */
    static method CopyTurn(src: Source, dst: Sink, buf: array<Byte>, n: nat, ghost p: seq<Byte>, ghost base: seq<Byte>,
                    ghost done: seq<Step>, ghost whole: Relayed)
      returns (nread: int, nwrit: int, m: nat, ghost done': seq<Step>, ghost p': seq<Byte>)
      requires n <= buf.Length && p == buf[..n]
      requires dst.received == base + SentBytes(done)
      requires whole == WithSteps(done, Copy(src.script, dst.script, p, buf.Length))
      modifies dst, src, buf
      ensures m <= buf.Length && p' == buf[..m]
      ensures dst.received == base + SentBytes(done')
      ensures nread > 0 && nwrit >= 0 ==> Size(src.script) < old(Size(src.script))
      ensures nread > 0 && nwrit >= 0 ==> whole == WithSteps(done', Copy(src.script, dst.script, p', buf.Length))
      ensures nread <= 0 ==> nwrit == 0
      ensures nread == 0 ==> whole == WithSteps(done', Flush(src.script, dst.script, p'))
      ensures nread < 0 ==> whole == Relayed(nread, done', src.script, dst.script)
      ensures nwrit < 0 ==> nwrit == whole.result && src.script == whole.src && dst.script == whole.sink
                            && done' == whole.steps
    {
      ghost var s0 := dst.script;
      ghost var block := buf.Length;
      ghost var rd, q, w;
      nread, nwrit, m, rd, q, w := ReadTurn(src, dst, buf, n, p);
      if nread <= 0 {
        TurnEnded(whole, done, old(src.script), s0, p, block, rd);
        p' := p;
        done' := done + [if nread < 0 then ReadFailed else Ended];
        return;
      }
      if nwrit < 0 {
        TurnWriteFailed(whole, done, old(src.script), s0, p, block, rd, q, w, base);
        done' := whole.steps;
        p' := buf[..m];
        return;
      }
      TurnWrote(whole, done, old(src.script), s0, p, block, rd, q, w, base);
      done' := done + [Got(rd.bytes), Wrote(q[..nwrit])];
      p' := q[nwrit..];
    }

    /** One turn of the read loop of gemini_request_stream: read after the n
      bytes p held, write all that is held, move what was not taken to the
      front of the buffer. */
    static method ReadTurn(src: Source, dst: Sink, buf: array<Byte>, n: nat, ghost p: seq<Byte>)
      returns (nread: int, nwrit: int, m: nat, ghost rd: Pulled, ghost q: seq<Byte>, ghost w: Sent)
      requires n <= buf.Length && p == buf[..n]
      modifies dst, src, buf
      ensures m <= buf.Length
      ensures rd == Pull(old(src.script), buf.Length - n) && nread == rd.got && src.script == rd.rest
      ensures nread <= 0 ==> nwrit == 0 && m == n && buf[..n] == p
                             && dst.script == old(dst.script) && dst.received == old(dst.received)
      ensures nread > 0 ==> q == p + rd.bytes && w == Transfer(old(dst.script), q)
                            && nwrit == w.result && dst.script == w.left && dst.received == old(dst.received) + w.bytes
      ensures nread > 0 && nwrit >= 0 ==> m == |q| - nwrit && buf[..m] == q[nwrit..]
    {
      w := Sent(0, [], dst.script);
      nread, m, rd, q := FillFrom(src, buf, n, p);
      nwrit := 0;
      if nread <= 0 {
        return;
      }
      w := Transfer(dst.script, q);
      nwrit, m := Drain(dst, buf, m, q);
    }

    /** The read of one turn of gemini_request_stream: one read(2) into the
      buffer after the n bytes p it holds. */
    static method FillFrom(src: Source, buf: array<Byte>, n: nat, ghost p: seq<Byte>)
      returns (nread: int, m: nat, ghost rd: Pulled, ghost q: seq<Byte>)
      requires n <= buf.Length && p == buf[..n]
      modifies src, buf
      ensures rd == Pull(old(src.script), buf.Length - n) && nread == rd.got && src.script == rd.rest
      ensures nread <= 0 ==> m == n && buf[..n] == p
      ensures nread > 0 ==> q == p + rd.bytes && m == |q| <= buf.Length && buf[..m] == q
    {
      rd := Pull(src.script, buf.Length - n);
      q := [];
      nread := src.Read(buf, n, buf.Length - n);
      m := n;
      if nread <= 0 {
        return;
      }
      assert buf[..n] == p && buf[n..n + nread] == rd.bytes;
      q := buf[..n + nread];
      SliceJoin(buf[..], n, n + nread);
      m := n + nread;
    }

    /** The write of one turn of gemini_request_stream: write all the m bytes
      q held, then move what was not taken to the front. */
    static method Drain(dst: Sink, buf: array<Byte>, m: nat, ghost q: seq<Byte>) returns (nwrit: int, m': nat)
      requires m <= buf.Length && q == buf[..m]
      modifies dst, buf
      ensures var w := Transfer(old(dst.script), q);
        && nwrit == w.result && dst.script == w.left && dst.received == old(dst.received) + w.bytes
      ensures m' <= buf.Length
      ensures nwrit >= 0 ==> m' == m - nwrit && buf[..m'] == q[nwrit..]
    {
      m' := m;
      nwrit := WriteTo(dst, buf, m);
      if nwrit < 0 {
        return;
      }
      MoveDown(buf, nwrit, m);
      m' := m - nwrit;
    }

    /** One turn of the flush loop of gemini_request_stream. */
    static method FlushTurn(dst: Sink, buf: array<Byte>, n: nat, ghost p: seq<Byte>) returns (nwrit: int, m: nat)
      requires n <= buf.Length && p == buf[..n]
      modifies dst, buf
      ensures var w := Transfer(old(dst.script), p);
        && nwrit == w.result && dst.script == w.left && dst.received == old(dst.received) + w.bytes
        && (nwrit >= 0 ==> m == n - nwrit && buf[..m] == p[nwrit..])
    {
      m := n;
      nwrit := WriteTo(dst, buf, n);
      if nwrit < 0 {
        return;
      }
      MoveDown(buf, nwrit, n);
      m := n - nwrit;
    }

    /** gemini_request_close: release the session, the socket and the URL,
      each only if still held. */
    method Close()
      modifies this
      ensures ssl == null && url == null && fd == ClosedFd(old(fd))
      ensures released == old(released) + Releases(old(ssl) != null, old(fd), old(url) != null)
      ensures ReleasedOnce(old(released), old(ssl) != null, old(fd), old(url) != null)
          ==> ReleasedOnce(released, false, fd, false)
    {
      if ReleasedOnce(released, ssl != null, fd, url != null) {
        CloseReleasesOnce(released, ssl != null, fd, url != null);
      }
      ghost var was := released;
      ghost var a: seq<Resource> := if ssl != null then [TlsSession] else [];
      ghost var b: seq<Resource> := if fd >= 0 then [Socket(fd)] else [];
      ghost var c: seq<Resource> := if url != null then [UrlStorage] else [];
      assert Releases(ssl != null, fd, url != null) == (a + b) + c;
      Regroup(was, a, b);
      Regroup(was, a + b, c);
      assert was + [] == was;
      if ssl != null {
        released := released + [TlsSession];
        ssl := null;
      }
      if fd >= 0 {
        released := released + [Socket(fd)];
        fd := -1;
      }
      if url != null {
        released := released + [UrlStorage];
        url := null;
      }
    }
  }
}
