/** The put fast path of <stdio.h>: __sputc in its inline and its macro form. */
module Stdio {
  import opened Bytes

  const NEWLINE: byte := 10

  /** The part of FILE that __sputc touches, with its buffer, and what has
      already been handed to the write function. */
  datatype State = State(
    buf: seq<byte>,   // _bf: base and size
    p: int,           // _p, as an index into the buffer
    r: int, w: int, lbfsize: int,
    reading: bool, writing: bool, lineBuffered: bool,
    sink: seq<byte>)

  /** What <stdio.h> says always holds. */
  predicate Documented(s: State) {
    && !(s.reading && s.writing)
    && s.lbfsize == (if s.lineBuffered && s.writing then -|s.buf| else 0)
    && (s.reading ==> s.w == 0)
    && (s.writing ==> s.r == 0)
  }

  /** `_w` never promises more than the buffer has: free space, or, line
      buffered, minus the bytes held. */
  predicate Space(s: State) {
    && 0 <= s.p <= |s.buf|
    && (s.w >= 1 ==> s.lbfsize == 0 && s.p + s.w <= |s.buf|)
    && (s.lbfsize < s.w <= 0 ==> s.p <= -s.w)
  }

  predicate Sound(s: State) {
    Documented(s) && Space(s)
  }

  /** Everything put so far: written out or still held. */
  function Output(s: State): seq<byte>
    requires 0 <= s.p <= |s.buf|
  {
    s.sink + s.buf[..s.p]
  }

  /** Equal but for buffer bytes from `_p` on. */
  predicate Alike(s: State, t: State) {
    && t == s.(buf := t.buf) && |s.buf| == |t.buf|
    && 0 <= s.p <= |s.buf| && s.buf[..s.p] == t.buf[..s.p]
  }

  /** A state __sputc may call __swbuf in: sound but for the count taken. */
  predicate Calling(s: State) {
    Sound(s.(w := s.w + 1))
  }

  /** A call left the invariants restored, and either failed or put the byte.
      What a failed call does to the bytes held is not promised. */
  predicate Puts(s: State, c: int, r: (State, int))
    requires 0 <= s.p <= |s.buf|
  {
    && Sound(r.0)
    && (r.1 != -1 ==> r.1 == c % 256 && Output(r.0) == Output(s) + [c % 256])
  }

  /** The contract of __swbuf: it puts the byte, and looks at nothing beyond `_p`
      and at the low byte of its argument only. */
  ghost predicate Swbuf(f: (State, int) -> (State, int)) {
    && (forall s, c {:trigger f(s, c)} :: Calling(s) ==> Puts(s, c, f(s, c)))
    && forall s, t, c, d {:trigger f(s, c), f(t, d)} :: Calling(s) && Alike(s, t) && c % 256 == d % 256 ==>
         Alike(f(s, c).0, f(t, d).0) && f(s, c).1 == f(t, d).1
  }

  /** The contract can be kept: writing everything through keeps it. */
  function WriteThrough(s: State, c: int): (State, int) {
    if 0 <= s.p <= |s.buf| then (s.(sink := s.sink + s.buf[..s.p] + [c % 256], p := 0, w := 0), c % 256) else (s, -1)
  }

  lemma ContractHasModel()
    ensures Swbuf(WriteThrough)
  {
    forall s, c | Calling(s) ensures Puts(s, c, WriteThrough(s, c)) {
      var r := WriteThrough(s, c).0;
      assert r.sink + r.buf[..0] == r.sink;
    }
  }

  /** The store: *_p++ = c. */
  function Store1(s: State, c: int): State
    requires 0 <= s.p < |s.buf|
  {
    s.(buf := s.buf[s.p := c % 256], p := s.p + 1)
  }

  /** Whether __sputc stores by itself. */
  predicate Direct(s: State, c: int) {
    s.w - 1 >= 0 || (s.w - 1 >= s.lbfsize && c % 256 != NEWLINE)
  }

  /** The inline function. */
  function Inline(f: (State, int) -> (State, int), s: State, c: int): (State, int)
    requires Sound(s)
  {
    var t := s.(w := s.w - 1);
    if t.w >= 0 || (t.w >= t.lbfsize && c % 256 != NEWLINE) then (Store1(t, c), c % 256) else f(t, c)
  }

  /** The macro. */
  function Macro(f: (State, int) -> (State, int), s: State, c: int): (State, int)
    requires Sound(s)
  {
    var t := s.(w := s.w - 1);
    if t.w < 0 then
      if t.w >= t.lbfsize then
        var u := t.(buf := t.buf[t.p := c % 256]);
        if u.buf[u.p] != NEWLINE then (u.(p := u.p + 1), u.buf[u.p]) else f(u, NEWLINE)
      else f(t, c)
    else (Store1(t, c), c % 256)
  }

  /** A direct store is inside the buffer and never made in read mode. */
  lemma DirectIsSafe(s: State, c: int)
    requires Sound(s) && Direct(s, c)
    ensures 0 <= s.p < |s.buf| && !s.reading
  {
  }

  /** A newline on a line-buffered stream is never stored directly: it goes to
      __swbuf, which flushes.  Another byte is, as long as the buffer has room. */
  lemma NewlineFlushes(f: (State, int) -> (State, int), s: State, c: int)
    requires Sound(s) && s.lineBuffered && s.writing && s.buf != []
    ensures c % 256 == 10 ==> Inline(f, s, c) == f(s.(w := s.w - 1), c)
    ensures c % 256 != 10 && -|s.buf| < s.w ==>
      Inline(f, s, c) == (s.(w := s.w - 1, buf := s.buf[s.p := c % 256], p := s.p + 1), c % 256)
    ensures s.w <= -|s.buf| ==> Inline(f, s, c) == f(s.(w := s.w - 1), c)
  {
  }

  /** As long as there is space, a byte is stored without a call, in either form. */
  lemma SpaceStores(f: (State, int) -> (State, int), s: State, c: int)
    requires Sound(s) && s.w > 0
    ensures Inline(f, s, c) == Macro(f, s, c) ==
            (s.(w := s.w - 1, buf := s.buf[s.p := c % 256], p := s.p + 1), c % 256)
  {
  }

  /** One put keeps the invariants and, unless it fails, appends its byte. */
  lemma InlinePuts(f: (State, int) -> (State, int), s: State, c: int)
    requires Sound(s) && Swbuf(f)
    ensures Puts(s, c, Inline(f, s, c))
  {
    var t := s.(w := s.w - 1);
    assert t.(w := t.w + 1) == s;
    if Direct(s, c) {
      assert Store1(t, c).buf[..s.p + 1] == s.buf[..s.p] + [c % 256];
      assert s.sink + (s.buf[..s.p] + [c % 256]) == Output(s) + [c % 256];
    }
  }

  /** The two forms agree on value, counts, position and all that was put, from
      states that agree up to bytes beyond `_p`. */
  lemma FormsAgree(f: (State, int) -> (State, int), s: State, t: State, c: int)
    requires Sound(s) && Alike(s, t) && Swbuf(f)
    ensures Sound(t)
    ensures Inline(f, s, c).1 == Macro(f, t, c).1
    ensures Alike(Inline(f, s, c).0, Macro(f, t, c).0)
  {
    var s1, t1 := s.(w := s.w - 1), t.(w := t.w - 1);
    assert s1.(w := s1.w + 1) == s;
    if Direct(s, c) {
      assert s.buf[s.p := c % 256][..s.p + 1] == s.buf[..s.p] + [c % 256];
      assert t.buf[s.p := c % 256][..s.p + 1] == t.buf[..s.p] + [c % 256];
    } else if t1.w >= t1.lbfsize {
      var u := t1.(buf := t1.buf[t1.p := c % 256]);
      assert u.buf[..u.p] == t1.buf[..u.p];
      assert Alike(s1, u) && c % 256 == NEWLINE % 256;
    } else {
      assert Alike(s1, t1);
    }
  }

  // ---- any run of puts -------------------------------------------------------------

  /** The state after putting `cs`, and the values returned. */
  ghost function RunInline(f: (State, int) -> (State, int), s: State, cs: seq<int>): (State, seq<int>)
    requires Sound(s) && Swbuf(f)
    decreases cs
  {
    if cs == [] then (s, [])
    else
      InlinePuts(f, s, cs[0]);
      var r := Inline(f, s, cs[0]);
      var rest := RunInline(f, r.0, cs[1..]);
      (rest.0, [r.1] + rest.1)
  }

  ghost function RunMacro(f: (State, int) -> (State, int), s: State, cs: seq<int>): (State, seq<int>)
    requires Sound(s) && Swbuf(f)
    decreases cs
  {
    if cs == [] then (s, [])
    else
      MacroSound(f, s, cs[0]);
      var r := Macro(f, s, cs[0]);
      var rest := RunMacro(f, r.0, cs[1..]);
      (rest.0, [r.1] + rest.1)
  }

  lemma MacroSound(f: (State, int) -> (State, int), s: State, c: int)
    requires Sound(s) && Swbuf(f)
    ensures Sound(Macro(f, s, c).0)
  {
    FormsAgree(f, s, s, c);
    InlinePuts(f, s, c);
  }

  function LowBytes(cs: seq<int>): (bs: seq<byte>)
    ensures |bs| == |cs| && forall i :: 0 <= i < |cs| ==> bs[i] == cs[i] % 256
  {
    seq(|cs|, i requires 0 <= i < |cs| => cs[i] % 256)
  }

  /** A run without failure keeps the invariants and appends all its bytes. */
  lemma {:induction false} RunAppends(f: (State, int) -> (State, int), s: State, cs: seq<int>)
    requires Sound(s) && Swbuf(f)
    ensures var (t, rs) := RunInline(f, s, cs);
      |rs| == |cs| && Sound(t) && (-1 !in rs ==> Output(t) == Output(s) + LowBytes(cs))
    decreases cs
  {
    hide Swbuf, Inline, Documented, Output;
    if cs == [] {
      assert Output(s) + [] == Output(s) && LowBytes(cs) == [];
    } else {
      InlinePuts(f, s, cs[0]);
      var r := Inline(f, s, cs[0]);
      RunAppends(f, r.0, cs[1..]);
      assert LowBytes(cs) == [cs[0] % 256] + LowBytes(cs[1..]);
      assert Output(s) + [cs[0] % 256] + LowBytes(cs[1..]) == Output(s) + ([cs[0] % 256] + LowBytes(cs[1..]));
    }
  }

  /** The values a run returns do not depend on the puts after them. */
  lemma {:induction false} RunPrefix(f: (State, int) -> (State, int), s: State, cs: seq<int>, k: nat)
    requires Sound(s) && Swbuf(f) && k <= |cs|
    ensures k <= |RunInline(f, s, cs).1|
    ensures RunInline(f, s, cs[..k]).1 == RunInline(f, s, cs).1[..k]
    decreases k
  {
    hide Swbuf, Inline, Documented;
    RunAppends(f, s, cs);
    if k > 0 {
      InlinePuts(f, s, cs[0]);
      assert cs[..k][0] == cs[0] && cs[..k][1..] == cs[1..][..k - 1];
      RunPrefix(f, Inline(f, s, cs[0]).0, cs[1..], k - 1);
    }
  }

  /** Any run of puts, after any `k` of them: the invariants hold, and if none has
      failed so far exactly their bytes have been appended, in order. */
  lemma RunPuts(f: (State, int) -> (State, int), s: State, cs: seq<int>, k: nat)
    requires Sound(s) && Swbuf(f) && k <= |cs|
    ensures var rs, t := RunInline(f, s, cs).1, RunInline(f, s, cs[..k]).0;
      |rs| == |cs| && Sound(t) && (-1 !in rs[..k] ==> Output(t) == Output(s) + LowBytes(cs[..k]))
  {
    RunAppends(f, s, cs);
    RunAppends(f, s, cs[..k]);
    RunPrefix(f, s, cs, k);
  }

  /** Programs compiled with either form behave alike, put after put. */
  lemma {:induction false} RunsAgree(f: (State, int) -> (State, int), s: State, t: State, cs: seq<int>)
    requires Sound(s) && Alike(s, t) && Swbuf(f)
    ensures Sound(t)
    ensures RunInline(f, s, cs).1 == RunMacro(f, t, cs).1
    ensures Alike(RunInline(f, s, cs).0, RunMacro(f, t, cs).0)
    decreases cs
  {
    FormsAgree(f, s, t, if cs == [] then 0 else cs[0]);
    if cs != [] {
      InlinePuts(f, s, cs[0]);
      RunsAgree(f, Inline(f, s, cs[0]).0, Macro(f, t, cs[0]).0, cs[1..]);
    }
  }

  // ---- as it runs ---------------------------------------------------------------------

  class File {
    var s: State
    const swbuf: (State, int) -> (State, int)

    constructor (s: State, swbuf: (State, int) -> (State, int))
      ensures this.s == s && this.swbuf == swbuf
    {
      this.s, this.swbuf := s, swbuf;
    }

    method Sputc(c: int) returns (result: int)
      requires Sound(s) && Swbuf(swbuf)
      modifies this
      ensures (s, result) == Inline(swbuf, old(s), c)
      ensures Puts(old(s), c, (s, result))
    {
      InlinePuts(swbuf, s, c);
      s := s.(w := s.w - 1);
      if s.w >= 0 || (s.w >= s.lbfsize && c % 256 != NEWLINE) {
        s := s.(buf := s.buf[s.p := c % 256]);
        result := s.buf[s.p];
        s := s.(p := s.p + 1);
      } else {
        var r := swbuf(s, c);
        s, result := r.0, r.1;
      }
    }
  }
}
