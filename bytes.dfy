/** Bytes, C strings and the few C library routines the core relies on
    (strlen, strrchr, strncpy, memcpy, memmove), written out so that their loops are verified too. */
module Bytes {

  /** One byte of a C string: a character below 256. */
  type Byte = c: char | c as int < 256

  const NUL: Byte := 0 as char
  const SLASH: Byte := '/'

  datatype Option<T> = None | Some(value: T)

  predicate NoNul(s: seq<Byte>) {
    forall i :: 0 <= i < |s| ==> s[i] != NUL
  }

  /** The array holds the C string v: v, then a terminating NUL. */
  predicate IsCString(a: seq<Byte>, v: seq<Byte>) {
    |v| < |a| && a[..|v|] == v && a[|v|] == NUL && NoNul(v)
  }

  /** The C string v is stored in a at offset at. */
  predicate HoldsCString(a: seq<Byte>, at: nat, v: seq<Byte>) {
    at + |v| < |a| && a[at..at + |v|] == v && a[at + |v|] == NUL && NoNul(v)
  }

  /** A C string names one value only: its bytes run up to the first NUL. */
  lemma CStringUnique(a: seq<Byte>, v: seq<Byte>, w: seq<Byte>)
    requires IsCString(a, v) && IsCString(a, w)
    ensures v == w
  {
  }

  /** Index of the last c in v, or -1 when v has none. */
  function LastIndexOf(v: seq<Byte>, c: Byte): (k: int)
    ensures -1 <= k < |v|
    ensures k >= 0 ==> v[k] == c
    ensures forall j :: k < j < |v| ==> v[j] != c
  {
    if v == [] then -1
    else if v[|v| - 1] == c then |v| - 1
    else LastIndexOf(v[..|v| - 1], c)
  }

  /** strlen: the length of the C string held by a. */
  method StrLen(a: array<Byte>, ghost v: seq<Byte>) returns (n: nat)
    requires IsCString(a[..], v)
    ensures n == |v|
  {
    n := 0;
    while a[n] != NUL
      invariant n <= |v|
      invariant a[..n] == v[..n]
      decreases |v| - n
    {
      assert a[..|v|][n] == v[n];
      n := n + 1;
    }
  }

  /** strrchr: the index of the last c in the C string held by a, or -1 (NULL). */
  method StrRChr(a: array<Byte>, c: Byte, ghost v: seq<Byte>) returns (k: int)
    requires IsCString(a[..], v) && c != NUL
    ensures k == LastIndexOf(v, c)
  {
    var n := StrLen(a, v);
    k := n as int - 1;
    while k >= 0 && a[k] != c
      invariant -1 <= k < n
      invariant LastIndexOf(v, c) == LastIndexOf(v[..k + 1], c)
    {
      assert a[..|v|][k] == v[k];
      assert v[..k + 1][..k] == v[..k];
      k := k - 1;
    }
    if k >= 0 {
      assert a[..|v|][k] == v[k];
    }
  }

  /** memmove(buf, buf + k, n - k): the bytes at k .. n move to the front. */
  method MoveDown(buf: array<Byte>, k: nat, n: nat)
    requires k <= n <= buf.Length
    modifies buf
    ensures buf[..n - k] == old(buf[k..n])
    ensures buf[n - k..] == old(buf[n - k..])
  {
    var i := 0;
    while i < n - k
      invariant 0 <= i <= n - k
      invariant buf[..i] == old(buf[k..k + i])
      invariant buf[i..] == old(buf[i..])
    {
      buf[i] := buf[i + k];
      i := i + 1;
    }
  }

  /** memcpy(dst + at, src, |src|). */
  method CopyInto(dst: array<Byte>, at: nat, src: seq<Byte>)
    requires at + |src| <= dst.Length
    modifies dst
    ensures dst[..at] == old(dst[..at])
    ensures dst[at..at + |src|] == src
    ensures dst[at + |src|..] == old(dst[at + |src|..])
  {
    var i := 0;
    while i < |src|
      invariant 0 <= i <= |src|
      invariant dst[..at] == old(dst[..at])
      invariant dst[at..at + i] == src[..i]
      invariant dst[at + i..] == old(dst[at + i..])
    {
      dst[at + i] := src[i];
      i := i + 1;
    }
  }
  /** strncpy(dst + at, src, n) for the C string src: the first n bytes of
      src, or all of it followed by NULs up to n bytes. */
  method StrNCopy(dst: array<Byte>, at: nat, src: seq<Byte>, n: nat)
    requires at + n <= dst.Length && NoNul(src)
    modifies dst
    ensures var m := if |src| < n then |src| else n;
      && dst[..at] == old(dst[..at])
      && dst[at..at + m] == src[..m]
      && (forall k :: at + m <= k < at + n ==> dst[k] == NUL)
      && dst[at + n..] == old(dst[at + n..])
  {
    var m := if |src| < n then |src| else n;
    var i := 0;
    while i < n
      invariant 0 <= i <= n
      invariant dst[..at] == old(dst[..at])
      invariant dst[at..at + (if i < m then i else m)] == src[..(if i < m then i else m)]
      invariant forall k :: at + m <= k < at + i ==> dst[k] == NUL
      invariant forall k :: at + i <= k < dst.Length ==> dst[k] == old(dst[k])
    {
      if i < |src| {
        dst[at + i] := src[i];
      } else {
        dst[at + i] := NUL;
      }
      i := i + 1;
    }
    assert dst[at + n..] == old(dst[at + n..]);
  }

  /** Slices that meet join up. */
  lemma SliceJoin<T>(a: seq<T>, i: nat, j: nat)
    requires i <= j <= |a|
    ensures a[..i] + a[i..j] == a[..j]
  {
  }

  /** The prefix as long as the sequence is the sequence. */
  lemma SliceAll<T>(a: seq<T>, i: nat)
    requires i == |a|
    ensures a[..i] == a
  {
  }

  /** A prefix grows by the element after it. */
  lemma SliceSnoc<T>(a: seq<T>, i: nat)
    requires i < |a|
    ensures a[..i] + [a[i]] == a[..i + 1]
  {
  }

  /** Concatenation regroups. */
  lemma Regroup<T>(a: seq<T>, b: seq<T>, c: seq<T>)
    ensures (a + b) + c == a + (b + c)
  {
  }

  /** Slices of a slice are slices. */
  lemma SliceOfSlice<T>(a: seq<T>, i: nat, j: nat, k: nat)
    requires i + k <= j <= |a|
    ensures a[i..j][..k] == a[i..i + k]
    ensures a[i..j][k..] == a[i + k..j]
  {
  }
}
