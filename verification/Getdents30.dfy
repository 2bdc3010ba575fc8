/** compat_30_sys_getdents: native directory records re-encoded as the
    smaller records of NetBSD 3.0. */
module Getdents30 {
  import opened Bytes
  import opened Kernel
  import opened Vfs

  /** A size_t of either width. */
  datatype Size = Size(word: Word, n: nat)

  type size_t = s: Size | s.n < Mod(s.word) witness Size(Ilp32, 0)

  /** struct dirent12, without its length fields. */
  datatype Dirent12 = Dirent12(fileno: nat, dtype: byte, name: seq<byte>)

  /** _DIRENT_SIZE of a dirent12 whose name has `n` bytes. */
  function OldSize(n: nat): (s: nat)
    ensures OLD_NAME_OFF + n < s <= OLD_NAME_OFF + n + 4 && s % 4 == 0
  {
    (OLD_NAME_OFF + n + 1 + 3) / 4 * 4
  }

  function Encode12(order: ByteOrder, d: Dirent12): (s: seq<byte>)
    requires |d.name| < OLD_NAME_SIZE
    ensures |s| == OldSize(|d.name|)
    ensures forall i :: 8 + |d.name| <= i < |s| ==> s[i] == 0
  {
    Store(order, 4, d.fileno) + Store(order, 2, OldSize(|d.name|)) + [d.dtype] + [|d.name|] +
    d.name + Zeros(OldSize(|d.name|) - OLD_NAME_OFF - |d.name|)
  }

  function NameLen(order: ByteOrder, m: seq<byte>, p: nat): (n: nat)
    requires p + NAME_OFF <= |m|
    ensures n < OLD_NAME_SIZE
  {
    var n := Field(order, m, p + NAMLEN_OFF, 2);
    if n >= OLD_NAME_SIZE then OLD_NAME_SIZE - 1 else n
  }

  /** The old entry made from the native record at `p`. */
  function OldEntry(order: ByteOrder, m: seq<byte>, p: nat): (d: Dirent12)
    requires p + NAME_OFF + OLD_NAME_SIZE - 1 <= |m|
    ensures |d.name| < OLD_NAME_SIZE
  {
    Dirent12(Field(order, m, p, FILENO_SIZE) % 0x1_0000_0000, m[p + TYPE_OFF],
             m[p + NAME_OFF..p + NAME_OFF + NameLen(order, m, p)])
  }

  // ---- one pass over the buffer ----------------------------------------

  /** What stays fixed during the pass: memory from the buffer on, cookies,
      and how much of the user's buffer can be written. */
  datatype Env = Env(order: ByteOrder, mem: seq<byte>, cookies: Option<nat -> int>, room: nat)

  /** The loop's variables: input position and length left, user space left,
      directory offset, cookies used, and bytes given to the user. */
  datatype Pos = Pos(inp: nat, len: nat, resid: int, off: int, used: nat, out: seq<byte>)

  datatype Scanned =
    | Stopped(p: Pos, short: bool)   // short: an entry did not fit
    | Failed(error: int, p: Pos)
    | Panicked

  /** Bytes a step may look at beyond the input left. */
  const SLACK := NAME_OFF + OLD_NAME_SIZE

  predicate InBounds(env: Env, p: Pos) {
    p.inp + p.len + SLACK <= |env.mem|
  }

  function RecLen(env: Env, p: Pos): nat
    requires InBounds(env, p)
  {
    Field(env.order, env.mem, p.inp + RECLEN_OFF, 2)
  }

  /** The directory offset after the record at hand. */
  function NextOff(env: Env, p: Pos): int
    requires InBounds(env, p)
  {
    if env.cookies.Some? then env.cookies.value(p.used) else p.off + RecLen(env, p)
  }

  /** The record at hand, re-encoded. */
  function OldRecord(env: Env, p: Pos): (s: seq<byte>)
    requires InBounds(env, p)
    ensures |s| > 0
  {
    Encode12(env.order, OldEntry(env.order, env.mem, p.inp))
  }

  /** Past the record at hand. */
  function Advance(env: Env, p: Pos): (q: Pos)
    requires InBounds(env, p) && RecLen(env, p) <= p.len
    ensures InBounds(env, q)
    ensures |q.out| > |p.out| && p.out <= q.out && q.resid + |q.out| == p.resid + |p.out|
  {
    Pos(p.inp + RecLen(env, p), p.len - RecLen(env, p), p.resid - |OldRecord(env, p)|,
        NextOff(env, p), p.used + 1, p.out + OldRecord(env, p))
  }

  function Scan(env: Env, p: Pos): Scanned
    requires InBounds(env, p)
    decreases p.resid
  {
    if p.len == 0 then Stopped(p, false)
    else if RecLen(env, p) % NATIVE_ALIGN != 0 then Panicked
    else if !(0 <= NextOff(env, p) < 0x1_0000_0000) then Failed(EINVAL, p)
    else if RecLen(env, p) > p.len || p.resid < |OldRecord(env, p)| then
      Stopped(p.(off := NextOff(env, p)), true)
    else if |p.out| + |OldRecord(env, p)| > env.room then Failed(EFAULT, p)
    else Scan(env, Advance(env, p))
  }

  /** One record of the pass. */
  lemma ScanStep(env: Env, p: Pos)
    requires InBounds(env, p)
    ensures p.len == 0 ==> Scan(env, p) == Stopped(p, false)
    ensures p.len > 0 ==>
      Scan(env, p) ==
      if RecLen(env, p) % NATIVE_ALIGN != 0 then Panicked
      else if !(0 <= NextOff(env, p) < 0x1_0000_0000) then Failed(EINVAL, p)
      else if RecLen(env, p) > p.len || p.resid < |OldRecord(env, p)| then Stopped(p.(off := NextOff(env, p)), true)
      else if |p.out| + |OldRecord(env, p)| > env.room then Failed(EFAULT, p)
      else Scan(env, Advance(env, p))
  {
  }

  /** A record length that is no multiple of 8 is the end of the system. */
  lemma BadLengthPanics(env: Env, p: Pos)
    requires InBounds(env, p) && p.len > 0
    ensures Load(env.order, env.mem[p.inp + 8..p.inp + 10]) % 8 != 0 ==> Scan(env, p) == Panicked
  {
  }

  /** The user's buffer once a record has been copied after the others, or not. */
  lemma CopyStep(was: seq<byte>, before: seq<byte>, now: seq<byte>, out: seq<byte>, rec: seq<byte>, error: int)
    requires |out| <= |was| == |before| == |now| && before == Splice(was, 0, out)
    requires error == if |out| + |rec| <= |was| then 0 else EFAULT
    requires error == 0 ==> now == Splice(before, |out|, rec)
    requires forall i :: 0 <= i < |out| ==> now[i] == before[i]
    ensures error == 0 ==> now == Splice(was, 0, out + rec)
    ensures now[..|out|] == out
  {
    if error == 0 {
      SpliceSplice(was, 0, out, rec);
    }
    assert now[..|out|] == before[..|out|];
  }

  // ---- one call -----------------------------------------------------------

  datatype Outcome =
    | Done(retval: nat, out: seq<byte>, off: int)
    | Error(error: int, out: seq<byte>)    // f_offset keeps its value
    | Panic

  /** What VOP_READDIR is asked for: the low 32 bits of the count, up to 64 KB. */
  function BufLen(count: size_t): (n: nat)
    ensures n == if count.n % 0x1_0000_0000 <= 0x1_0000 then count.n % 0x1_0000_0000 else 0x1_0000
    ensures n <= count.n
  {
    MinU(MAXBSIZE, count.n)
  }

  /** SCARG(uap, count) - resid, as it is returned. */
  function RetVal(count: size_t, resid: int): (r: nat)
    ensures r < Mod(count.word)
  {
    (count.n - resid) % Mod(count.word)
  }

  /** The memory the pass sees: the data read over whatever was there. */
  function Memory(data: seq<byte>, junk: seq<byte>): (m: seq<byte>)
    requires |data| <= |junk|
    ensures |m| == |junk|
  {
    data + junk[|data|..]
  }

  predicate Adequate(count: size_t, rd: ReadResult, junk: seq<byte>) {
    |rd.data| <= BufLen(count) && BufLen(count) + SLACK <= |junk|
  }

  /** What one call with a readable directory gives, from the offset it starts
      at and what VOP_READDIR returned. */
  function Call(order: ByteOrder, off: int, count: size_t, rd: ReadResult, junk: seq<byte>, room: nat): Outcome
    requires Adequate(count, rd, junk)
  {
    if rd.error != 0 then Error(rd.error, [])
    else if rd.data == [] then Done(RetVal(count, Int32(count.n)), [], off)
    else
      match Scan(Env(order, Memory(rd.data, junk), rd.cookies, room),
                 Pos(0, |rd.data|, Int32(count.n), off, 0, []))
      case Stopped(p, _) => Done(RetVal(count, p.resid), p.out, p.off)
      case Failed(error, p) => Error(error, p.out)
      case Panicked => Panic
  }

  /** A pass over a nonempty buffer always moves the user pointer, so the call
      never starts over. */
  lemma {:induction false} ScanMoves(env: Env, p: Pos)
    requires InBounds(env, p)
    ensures var s := Scan(env, p);
            s.Stopped? ==> p.out <= s.p.out && (s.short || p.len == 0 || |p.out| < |s.p.out|)
    ensures var s := Scan(env, p);
            s.Stopped? ==> |s.p.out| + s.p.resid == |p.out| + p.resid
    decreases p.resid
  {
    hide Advance, OldRecord;
    if p.len > 0 && RecLen(env, p) <= p.len && p.resid >= |OldRecord(env, p)| {
      ScanMoves(env, Advance(env, p));
    }
  }

  /** The system call. `junk` is what lies in memory from the allocated buffer
      on; `user` is the user's buffer. */
  method Getdents(order: ByteOrder, fd: Fd, count: size_t, user: array<byte>, junk: seq<byte>)
    returns (error: int, retval: int, panicked: bool)
    requires fd.Open? ==> !fd.fp.vp.locked
    requires fd.Open? ==> Adequate(count, fd.fp.vp.readdir(fd.fp.offset, BufLen(count)), junk)
    modifies user, if fd.Open? then {fd.fp, fd.fp.vp} else {}
    ensures fd.NoVnode? ==> error == fd.error && user[..] == old(user[..])
    ensures fd.Open? && !panicked ==>
      && fd.fp.vp == old(fd.fp.vp) && fd.fp.users == old(fd.fp.users)
      && !fd.fp.vp.locked && fd.fp.vp.usecount == old(fd.fp.vp.usecount)
    ensures fd.Open? && !fd.fp.readable ==> error == EBADF
    ensures fd.Open? && fd.fp.readable && !old(fd.fp.vp).isDir ==> error == EINVAL
    ensures fd.Open? && !(fd.fp.readable && old(fd.fp.vp).isDir) ==>
      !panicked && fd.fp.offset == old(fd.fp.offset) && user[..] == old(user[..])
    ensures fd.Open? && fd.fp.readable && old(fd.fp.vp).isDir ==>
      match Call(order, old(fd.fp.offset), count,
                 old(fd.fp.vp).readdir(old(fd.fp.offset), BufLen(count)), junk, user.Length)
      case Done(r, out, off) =>
        && !panicked && error == 0 && retval == r
        && fd.fp.offset == off
        && |out| <= user.Length && user[..] == Splice(old(user[..]), 0, out)
      case Error(e, out) =>
        && !panicked && error == e
        && fd.fp.offset == old(fd.fp.offset)
        && |out| <= user.Length && user[..|out|] == out
      case Panic => panicked
  {
    error, retval, panicked := 0, 0, false;
    if fd.NoVnode? {
      error := fd.error;
      return;
    }
    var fp := fd.fp;
    fp.users := fp.users + 1;
    if !fp.readable {
      error := EBADF;
    } else if !fp.vp.isDir {
      error := EINVAL;
    } else {
      error, retval, panicked := ReadAndConvert(order, fp, count, user, junk);
      if panicked { return; }
    }
    fp.users := fp.users - 1;
  }

  /** From vn_lock to VOP_UNLOCK. */
  method ReadAndConvert(order: ByteOrder, fp: File, count: size_t, user: array<byte>, junk: seq<byte>)
    returns (error: int, retval: int, panicked: bool)
    requires fp.vp.isDir && !fp.vp.locked
    requires Adequate(count, fp.vp.readdir(fp.offset, BufLen(count)), junk)
    modifies user, fp`offset, fp.vp`locked
    ensures !panicked ==> !fp.vp.locked
    ensures match Call(order, old(fp.offset), count, fp.vp.readdir(old(fp.offset), BufLen(count)), junk, user.Length)
      case Done(r, out, off) =>
        && !panicked && error == 0 && retval == r
        && fp.offset == off
        && |out| <= user.Length && user[..] == Splice(old(user[..]), 0, out)
      case Error(e, out) =>
        && !panicked && error == e
        && fp.offset == old(fp.offset)
        && |out| <= user.Length && user[..|out|] == out
      case Panic => panicked
  {
    hide Scan, Memory;
    error, retval, panicked := 0, 0, false;
    var vp, off := fp.vp, fp.offset;
    vp.Lock();
    var again := true;
    while again
      invariant again ==> vp.locked && off == fp.offset == old(fp.offset) && user[..] == old(user[..])
      invariant again ==> error == 0 && !panicked
      invariant !again && !panicked ==> vp.locked
      invariant !again ==>
        match Call(order, old(fp.offset), count, fp.vp.readdir(old(fp.offset), BufLen(count)), junk, user.Length)
        case Done(r, out, off) =>
          && !panicked && error == 0 && retval == r
          && fp.offset == off
          && |out| <= user.Length && user[..] == Splice(old(user[..]), 0, out)
        case Error(e, out) =>
          && !panicked && error == e
          && fp.offset == old(fp.offset)
          && |out| <= user.Length && user[..|out|] == out
        case Panic => panicked
      decreases again
    {
      again := false;
      var rd := vp.readdir(off, BufLen(count));
      error := rd.error;
      if error == 0 {
        var mem := Memory(rd.data, junk);
        var len := |rd.data|;
        if len == 0 {
          retval := RetVal(count, Int32(count.n));
        } else {
          var outp, resid;
          ScanMoves(Env(order, mem, rd.cookies, user.Length), Pos(0, len, Int32(count.n), off, 0, []));
          error, panicked, outp, resid, off := Convert(order, mem, len, rd.cookies, count, off, user);
          if error == 0 && !panicked {
            if outp == 0 {
              assert false;    // ScanMoves: the user pointer has moved
              again := true;
            } else {
              fp.offset := off;
              retval := RetVal(count, resid);
            }
          }
        }
      }
    }
    if !panicked {
      vp.Unlock();
    }
  }

  /** The conversion loop. */
  method Convert(order: ByteOrder, mem: seq<byte>, datalen: nat, cookies: Option<nat -> int>, count: size_t,
                 start: int, user: array<byte>)
    returns (error: int, panicked: bool, outp: nat, resid: int, off: int)
    requires datalen + SLACK <= |mem|
    modifies user
    ensures match Scan(Env(order, mem, cookies, user.Length), Pos(0, datalen, Int32(count.n), start, 0, []))
      case Stopped(p, short) =>
        && error == 0 && !panicked
        && off == p.off && resid == p.resid
        && outp == |p.out| + (if short then 1 else 0)
        && |p.out| <= user.Length && user[..] == Splice(old(user[..]), 0, p.out)
      case Failed(e, p) =>
        && error == e != 0 && !panicked
        && |p.out| <= user.Length && user[..|p.out|] == p.out
      case Panicked => panicked
  {
    hide Load, Encode12, OldEntry, NameLen, Scan, Splice, OldSize;
    error, panicked, outp, resid, off := 0, false, 0, Int32(count.n), start;
    var inp, len, used := 0, datalen, 0;
    ghost var env := Env(order, mem, cookies, user.Length);
    ghost var p := Pos(0, len, resid, off, 0, []);
    SpliceNothing(user[..]);
    while len > 0
      invariant 0 <= inp && 0 <= len
      invariant InBounds(env, p) && p == Pos(inp, len, resid, off, used, p.out)
      invariant outp == |p.out| <= user.Length
      invariant user[..] == Splice(old(user[..]), 0, p.out)
      invariant Scan(env, Pos(0, datalen, Int32(count.n), start, 0, [])) == Scan(env, p)
      invariant error == 0 && !panicked
      decreases resid
    {
      ScanStep(env, p);
      var reclen := Field(order, mem, inp + RECLEN_OFF, 2);
      if reclen % NATIVE_ALIGN != 0 {
        panicked := true;
        return;
      }
      off := if cookies.Some? then cookies.value(used) else off + reclen;
      used := used + 1;
      ghost var before := user[..];
      SplicePrefix(old(user[..]), p.out);
      if off < 0 || off >= 0x1_0000_0000 {
        error := EINVAL;
        return;
      }
      var idb := OldEntry(order, mem, inp);
      var size := OldSize(|idb.name|);
      if reclen > len || resid < size {
        outp := outp + 1;
        return;
      }
      error := CopyOut(Encode12(order, idb), user, outp);
      CopyStep(old(user[..]), before, user[..], p.out, Encode12(order, idb), error);
      if error != 0 { return; }
      inp := inp + reclen;
      outp := outp + size;
      resid := resid - size;
      len := len - reclen;
      p := Advance(env, p);
    }
    ScanStep(env, p);
  }
}
