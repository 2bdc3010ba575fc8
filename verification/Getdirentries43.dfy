/** compat_43_sys_getdirentries: directory records rewritten in place for 4.3BSD
    programs, over a stack of union mounts. */
module Getdirentries43 {
  import opened Bytes
  import opened Kernel
  import opened Vfs

  // ---- the rewrite walk -----------------------------------------------------

  /** The record at `p` rewritten: on a little-endian machine d_type takes
      d_namlen, which becomes 0; on a big-endian one d_type becomes 0. */
  function RewriteAt(order: ByteOrder, m: seq<byte>, p: nat): (r: seq<byte>)
    requires p + NAME_OFF <= |m|
    ensures |r| == |m|
  {
    if order.LittleEndian? then
      m[p + TYPE_OFF := Field(order, m, p + NAMLEN_OFF, 2) % 256][p + NAMLEN_OFF := 0][p + NAMLEN_OFF + 1 := 0]
    else m[p + TYPE_OFF := 0]
  }

  /** The walk from `p`: the new contents, and whether it reached the end. */
  function Walk(order: ByteOrder, m: seq<byte>, p: nat, end: nat): (r: (seq<byte>, bool))
    requires end + NAME_OFF <= |m|
    ensures |r.0| == |m|
    decreases end - p
  {
    if p >= end then (m, true)
    else
      var m1 := RewriteAt(order, m, p);
      var reclen := Field(order, m1, p + RECLEN_OFF, 2);
      if reclen == 0 then (m1, false) else Walk(order, m1, p + reclen, end)
  }

  /** The walk in place; EIO for a record of length zero. */
  method Rewrite(order: ByteOrder, dirbuf: array<byte>, readcnt: nat) returns (error: int)
    requires readcnt + NAME_OFF <= dirbuf.Length
    modifies dirbuf
    ensures dirbuf[..] == Walk(order, old(dirbuf[..]), 0, readcnt).0
    ensures error == if Walk(order, old(dirbuf[..]), 0, readcnt).1 then 0 else EIO
  {
    hide Load;
    var dp := 0;
    error := 0;
    while dp < readcnt
      invariant 0 <= dp && error == 0
      invariant Walk(order, old(dirbuf[..]), 0, readcnt) == Walk(order, dirbuf[..], dp, readcnt)
      decreases readcnt - dp
    {
      ghost var before := dirbuf[..];
      if order.LittleEndian? {
        dirbuf[dp + TYPE_OFF] := Field(order, dirbuf[..], dp + NAMLEN_OFF, 2) % 256;
        dirbuf[dp + NAMLEN_OFF] := 0;
        dirbuf[dp + NAMLEN_OFF + 1] := 0;
      } else {
        dirbuf[dp + TYPE_OFF] := 0;
      }
      assert dirbuf[..] == RewriteAt(order, before, dp);
      var reclen := Field(order, dirbuf[..], dp + RECLEN_OFF, 2);
      if reclen > 0 {
        dp := dp + reclen;
      } else {
        error := EIO;
        return;
      }
    }
  }

  /** A record after the rewrite. */
  function Rewritten(order: ByteOrder, r: seq<byte>): (s: seq<byte>)
    requires WellFormed(order, r)
    ensures |s| == |r|
  {
    RewriteAt(order, r, 0)
  }

  function AllRewritten(order: ByteOrder, rs: seq<seq<byte>>): (ss: seq<seq<byte>>)
    requires AllWellFormed(order, rs)
    ensures |ss| == |rs| && forall i :: 0 <= i < |rs| ==> ss[i] == Rewritten(order, rs[i])
  {
    seq(|rs|, i requires 0 <= i < |rs| => Rewritten(order, rs[i]))
  }

  /** Rewriting a record touches d_type and d_namlen only: inode number, record
      length and name are as they were. */
  lemma RewriteKeeps(order: ByteOrder, r: seq<byte>)
    requires WellFormed(order, r)
    ensures var s := Rewritten(order, r);
      && s[..NAMLEN_OFF] == r[..NAMLEN_OFF] && s[NAME_OFF..] == r[NAME_OFF..]
      && Field(order, s, RECLEN_OFF, 2) == |s|
      && (order.LittleEndian? ==>
            && s[TYPE_OFF] == Field(order, r, NAMLEN_OFF, 2) % 256
            && Field(order, s, NAMLEN_OFF, 2) == 0)
      && (order.BigEndian? ==> s[TYPE_OFF] == 0 && s[..TYPE_OFF] == r[..TYPE_OFF])
  {
    var s := Rewritten(order, r);
    assert s[RECLEN_OFF..RECLEN_OFF + 2] == r[RECLEN_OFF..RECLEN_OFF + 2];
    if order.LittleEndian? {
      var z := s[NAMLEN_OFF..NAMLEN_OFF + 2];
      assert z == [0, 0] && z[1..] == [0] && z[1..][1..] == [];
      assert Load(order, z[1..]) == 0;
    }
  }

  lemma RewriteInPlace(order: ByteOrder, m: seq<byte>, p: nat, r: seq<byte>)
    requires WellFormed(order, r) && p + |r| <= |m| && m[p..p + |r|] == r
    ensures RewriteAt(order, m, p) == m[..p] + Rewritten(order, r) + m[p + |r|..]
    ensures Field(order, RewriteAt(order, m, p), p + RECLEN_OFF, 2) == |r|
  {
    hide Load;
    SliceOfSlice(m, p, p + |r|, NAMLEN_OFF, NAMLEN_OFF + 2);
    SliceOfSlice(m, p, p + |r|, RECLEN_OFF, RECLEN_OFF + 2);
    var m1 := RewriteAt(order, m, p);
    assert m1[p + RECLEN_OFF..p + RECLEN_OFF + 2] == m[p + RECLEN_OFF..p + RECLEN_OFF + 2];
    assert m == m[..p] + r + m[p + |r|..];
  }

  /** The walk over whole records rewrites each of them and nothing else. */
  lemma {:induction false} WalkTiled(order: ByteOrder, m: seq<byte>, p: nat, end: nat, rs: seq<seq<byte>>)
    requires p <= end && end + NAME_OFF <= |m| && AllWellFormed(order, rs)
    requires m[p..end] == Flatten(rs)
    ensures Walk(order, m, p, end) == (m[..p] + Flatten(AllRewritten(order, rs)) + m[end..], true)
    decreases rs
  {
    hide RewriteAt, Field, WellFormed;
    if rs == [] {
      assert m == m[..p] + Flatten(AllRewritten(order, rs)) + m[end..];
    } else {
      var r, rest := rs[0], rs[1..];
      FirstRecord(m, p, end, rs);
      RewriteInPlace(order, m, p, r);
      var m1, q := RewriteAt(order, m, p), p + |r|;
      assert WellFormed(order, r);
      Nonempty(order, r);
      assert m1[q..] == m[q..];
      assert m1[q..end] == m[q..end] && m1[end..] == m[end..];
      WalkTiled(order, m1, q, end, rest);
      assert m1[..q] == m[..p] + Rewritten(order, r);
      assert AllRewritten(order, rs)[1..] == AllRewritten(order, rest);
      assert m1[..q] + Flatten(AllRewritten(order, rest)) == m[..p] + Flatten(AllRewritten(order, rs));
    }
  }

  /** The rewrite of a native record, field by field. */
  lemma NativeRewritten(order: ByteOrder, fileno: nat, dtype: byte, name: seq<byte>, pad: seq<byte>)
    requires fileno < 0x1_0000_0000_0000_0000 && pad != []
    requires (13 + |name| + |pad|) % 8 == 0 && 13 + |name| + |pad| < 0x1_0000
    ensures WellFormed(order, NativeRecord(order, fileno, dtype, name, pad))
    ensures Rewritten(order, NativeRecord(order, fileno, dtype, name, pad)) ==
            Store(order, 8, fileno) + Store(order, 2, 13 + |name| + |pad|) +
            (if order.LittleEndian? then [0, 0, |name| % 256] else Store(order, 2, |name|) + [0]) + name + pad
  {
    hide Store, Load, WellFormed;
    NativeFields(order, fileno, dtype, name, pad);
    NativeWellFormed(order, fileno, dtype, name, pad);
  }

  /** A record of length zero, after whole ones, ends the walk short of the end. */
  lemma {:induction false} WalkStops(order: ByteOrder, m: seq<byte>, p: nat, q: nat, end: nat, rs: seq<seq<byte>>)
    requires p <= q < end && end + NAME_OFF <= |m| && AllWellFormed(order, rs)
    requires m[p..q] == Flatten(rs) && Load(order, m[q + 8..q + 10]) == 0
    ensures !Walk(order, m, p, end).1
    decreases rs
  {
    hide RewriteAt, Field, Load, WellFormed;
    if rs == [] {
      StopsHere(order, m, q);
    } else {
      var r := rs[0];
      FirstRecord(m, p, q, rs);
      RewriteInPlace(order, m, p, r);
      Nonempty(order, r);
      var m1, s := RewriteAt(order, m, p), p + |r|;
      assert m1[s..] == m[s..];
      assert m1[s..q] == m[s..q];
      LaterField(m1, m, s, q + 8, q + 10);
      WalkStops(order, m1, s, q, end, rs[1..]);
    }
  }

  lemma StopsHere(order: ByteOrder, m: seq<byte>, q: nat)
    requires q + NAME_OFF <= |m| && Load(order, m[q + 8..q + 10]) == 0
    ensures Field(order, RewriteAt(order, m, q), q + RECLEN_OFF, 2) == 0
  {
    hide Load;
    assert RewriteAt(order, m, q)[q + 8..q + 10] == m[q + 8..q + 10];
  }

  lemma LaterField(m1: seq<byte>, m: seq<byte>, s: nat, a: nat, b: nat)
    requires |m1| == |m| && s <= a <= b <= |m| && m1[s..] == m[s..]
    ensures m1[a..b] == m[a..b]
  {
    assert m1[s..] == m1[s..|m1|] && m[s..] == m[s..|m|];
    SliceOfSlice(m1, s, |m1|, a - s, b - s);
    SliceOfSlice(m, s, |m|, a - s, b - s);
  }

  lemma Nonempty(order: ByteOrder, r: seq<byte>)
    requires WellFormed(order, r)
    ensures |r| > NAME_OFF
  {
  }

  // ---- one call over a union stack ------------------------------------------

  /** What the call needs to know of a vnode. */
  datatype Layer = Layer(isDir: bool, unionRoot: bool, fullDtype: bool,
                         readdir: (int, nat) -> ReadResult, fault: (int, nat) -> int)

  function LayerOf(v: Vnode): Layer {
    Layer(v.isDir, v.unionRoot, v.fullDtype, v.readdir, v.fault)
  }

  function Layers(stack: seq<Vnode>): (ls: seq<Layer>)
    ensures |ls| == |stack| && forall i :: 0 <= i < |ls| ==> ls[i] == LayerOf(stack[i])
  {
    seq(|stack|, i requires 0 <= i < |stack| => LayerOf(stack[i]))
  }

  const LE_SLACK := NAME_OFF

  predicate Adequate(l: Layer, off: int, count: nat, junk: seq<byte>) {
    var n := |l.readdir(off, count).data|;
    n <= count && n + LE_SLACK <= |junk|
  }

  /** VOP_READDIR writes straight to the user's memory, and nothing is rewritten. */
  predicate Straight(order: ByteOrder, l: Layer) {
    order.BigEndian? && !l.fullDtype
  }

  /** Reading one layer: the error, the bytes given to the user, and the offset
      the file is left at. */
  datatype Read1 = Read1(error: int, out: seq<byte>, off: int)

  function ReadLayer(order: ByteOrder, l: Layer, off: int, count: nat, junk: seq<byte>, room: nat): Read1
    requires Adequate(l, off, count, junk)
  {
    var rd := l.readdir(off, count);
    if rd.error != 0 then Read1(rd.error, [], rd.next)
    else if Straight(order, l) then
      if |rd.data| <= room then Read1(0, rd.data, rd.next) else Read1(EFAULT, [], l.fault(off, count))
    else
      var w := Walk(order, rd.data + junk[|rd.data|..], 0, |rd.data|);
      if !w.1 then Read1(EIO, [], rd.next)
      else if |rd.data| <= room then Read1(0, w.0[..|rd.data|], rd.next)
      else Read1(EFAULT, [], rd.next)
  }

  /** Data with a record of length zero gives EIO, and the user nothing. */
  lemma ZeroLengthFails(order: ByteOrder, l: Layer, off: int, count: nat, junk: seq<byte>, room: nat, rs: seq<seq<byte>>)
    requires Adequate(l, off, count, junk) && l.readdir(off, count).error == 0 && !Straight(order, l)
    requires AllWellFormed(order, rs) && |Flatten(rs)| < |l.readdir(off, count).data|
    requires Flatten(rs) <= l.readdir(off, count).data
    requires var m := l.readdir(off, count).data + junk[|l.readdir(off, count).data|..];
      Load(order, m[|Flatten(rs)| + 8..|Flatten(rs)| + 10]) == 0
    ensures ReadLayer(order, l, off, count, junk, room) == Read1(5, [], l.readdir(off, count).next)
  {
    hide Load, WellFormed, Walk;
    var data := l.readdir(off, count).data;
    var m := data + junk[|data|..];
    assert m[0..|Flatten(rs)|] == Flatten(rs);
    WalkStops(order, m, 0, |Flatten(rs)|, |data|, rs);
  }

  /** Outcome of a call: the layer and offset the file ends at, the error or
      the bytes delivered, and the offset reported through basep. */
  datatype Result43 = Result43(layer: nat, off: int, error: int, out: seq<byte>, base: int)

  predicate Stack(ls: seq<Layer>) {
    ls != [] && !ls[|ls| - 1].unionRoot
  }

  function Call43(order: ByteOrder, ls: seq<Layer>, i: nat, off: int, count: nat, junk: seq<byte>,
                  room: nat, baseOk: bool): (r: Result43)
    requires Stack(ls) && i < |ls|
    requires |junk| >= count + LE_SLACK
    requires forall k, o :: 0 <= k < |ls| ==> |ls[k].readdir(o, count).data| <= count
    ensures i <= r.layer < |ls|
    decreases |ls| - i
  {
    if !ls[i].isDir then Result43(i, off, EINVAL, [], off)
    else
      var rd := ReadLayer(order, ls[i], off, count, junk, room);
      if rd.error != 0 then Result43(i, rd.off, rd.error, [], off)
      else if rd.out == [] && ls[i].unionRoot then Call43(order, ls, i + 1, 0, count, junk, room, baseOk)
      else Result43(i, rd.off, if baseOk then 0 else EFAULT, rd.out, off)
  }

  lemma CallStep(order: ByteOrder, ls: seq<Layer>, i: nat, off: int, count: nat, junk: seq<byte>,
                 room: nat, baseOk: bool)
    requires Stack(ls) && i < |ls|
    requires |junk| >= count + LE_SLACK
    requires forall k, o :: 0 <= k < |ls| ==> |ls[k].readdir(o, count).data| <= count
    ensures var rd := ReadLayer(order, ls[i], off, count, junk, room);
      && (rd.error == 0 && rd.out == [] && ls[i].unionRoot ==> i + 1 < |ls|)
      && Call43(order, ls, i, off, count, junk, room, baseOk) ==
         if !ls[i].isDir then Result43(i, off, EINVAL, [], off)
         else if rd.error != 0 then Result43(i, rd.off, rd.error, [], off)
         else if rd.out == [] && ls[i].unionRoot then Call43(order, ls, i + 1, 0, count, junk, room, baseOk)
         else Result43(i, rd.off, if baseOk then 0 else EFAULT, rd.out, off)
  {
  }

  /** The mount stack below a vnode: each union root covers the next. */
  ghost predicate UnionStack(stack: seq<Vnode>) {
    && Stack(Layers(stack))
    && (forall i :: 0 <= i < |stack| - 1 ==> stack[i].unionRoot ==> stack[i].covered == stack[i + 1])
    && (forall i, j :: 0 <= i < j < |stack| ==> stack[i] != stack[j])
  }

  /** References on `v` other than the open file's. */
  ghost function OtherRefs(fp: File, v: Vnode): int
    reads fp`vp, v`usecount
  {
    v.usecount - if fp.vp == v then 1 else 0
  }

  /** What VOP_READDIR is asked for: the count, up to 64 KB. */
  function Asked(ucount: nat): (count: nat)
    ensures count == if ucount % 0x1_0000_0000 <= 0x1_0000 then ucount % 0x1_0000_0000 else 0x1_0000
  {
    MinU(MAXBSIZE, ucount)
  }

  /** The system call; `stack` is the mount stack below the open directory. */
  method Getdirentries(order: ByteOrder, fd: Fd, ucount: nat, user: array<byte>, junk: seq<byte>,
                       baseOk: bool, ghost stack: seq<Vnode>)
    returns (error: int, retval: nat, base: int)
    requires fd.Open? ==> UnionStack(stack) && fd.fp.vp == stack[0] && fd.fp.vp.usecount > 0
    requires fd.Open? ==> forall v :: v in stack ==> !v.locked
    requires |junk| >= MAXBSIZE + LE_SLACK
    requires fd.Open? ==>
      forall k, o :: 0 <= k < |stack| ==> |stack[k].readdir(o, Asked(ucount)).data| <= Asked(ucount)
    modifies user, if fd.Open? then {fd.fp} else {}, if fd.Open? then stack else []
    ensures fd.NoVnode? ==> error == fd.error && user[..] == old(user[..])
    // descriptor put, locks released, one reference held on the current layer
    ensures fd.Open? ==> fd.fp.users == old(fd.fp.users)
    ensures fd.Open? ==> forall v :: v in stack ==>
      !v.locked && OtherRefs(fd.fp, v) == old(OtherRefs(fd.fp, v))
    ensures fd.Open? ==> fd.fp.vp in stack && fd.fp.vp.usecount > 0
    ensures fd.Open? && !fd.fp.readable ==>
      error == EBADF && fd.fp.vp == old(fd.fp.vp) && fd.fp.offset == old(fd.fp.offset) && user[..] == old(user[..])
    ensures fd.Open? && fd.fp.readable && !stack[0].isDir ==>
      error == 22 && fd.fp.vp == old(fd.fp.vp) && fd.fp.offset == old(fd.fp.offset)
    ensures fd.Open? && fd.fp.readable ==>
      var r := Call43(order, Layers(stack), 0, old(fd.fp.offset), Asked(ucount), junk, user.Length, baseOk);
      && error == r.error && fd.fp.vp == stack[r.layer] && fd.fp.offset == r.off
      && |r.out| <= user.Length && user[..|r.out|] == r.out
      && (error == 0 ==> retval == |r.out| && base == r.base && user[..] == Splice(old(user[..]), 0, r.out))
  {
    error, retval, base := 0, 0, 0;
    if fd.NoVnode? {
      error := fd.error;
      return;
    }
    var fp := fd.fp;
    var count := Asked(ucount);
    fp.users := fp.users + 1;
    if !fp.readable {
      error := EBADF;
    } else {
      error, retval, base := ReadUnion(order, fp, count, user, junk, baseOk, stack);
    }
    fp.users := fp.users - 1;
  }

  /** From `unionread:` on. */
  method ReadUnion(order: ByteOrder, fp: File, count: nat, user: array<byte>, junk: seq<byte>,
                   baseOk: bool, ghost stack: seq<Vnode>)
    returns (error: int, retval: nat, base: int)
    requires UnionStack(stack) && fp.vp == stack[0] && fp.vp.usecount > 0
    requires forall v :: v in stack ==> !v.locked
    requires |junk| >= count + LE_SLACK
    requires forall k, o :: 0 <= k < |stack| ==> |stack[k].readdir(o, count).data| <= count
    modifies user, fp`vp, fp`offset, stack`usecount, stack`locked
    ensures forall v :: v in stack ==> !v.locked && OtherRefs(fp, v) == old(OtherRefs(fp, v))
    ensures fp.vp in stack && fp.vp.usecount > 0
    ensures var r := Call43(order, Layers(stack), 0, old(fp.offset), count, junk, user.Length, baseOk);
      && error == r.error && fp.vp == stack[r.layer] && fp.offset == r.off
      && |r.out| <= user.Length && user[..|r.out|] == r.out
      && (error == 0 ==> retval == |r.out| && base == r.base && user[..] == Splice(old(user[..]), 0, r.out))
  {
    hide Walk, Load, Layers, ReadLayer, Call43, Splice, OtherRefs, UnionStack;
    error, retval, base := 0, 0, 0;
    ghost var ls := Layers(stack);
    ghost var i := 0;
    var vp := fp.vp;
    StackOk(stack);
    while true
      invariant user[..] == old(user[..])
      invariant i < |stack| && vp == fp.vp == stack[i] && vp.usecount > 0
      invariant forall v :: v in stack ==> !v.locked && OtherRefs(fp, v) == old(OtherRefs(fp, v))
      invariant Call43(order, ls, 0, old(fp.offset), count, junk, user.Length, baseOk) ==
                Call43(order, ls, i, fp.offset, count, junk, user.Length, baseOk)
      decreases |stack| - i
    {
      CallStep(order, ls, i, fp.offset, count, junk, user.Length, baseOk);
      SpliceNothing(user[..]);
      if !vp.isDir {
        error := EINVAL;
        return;
      }
      var loff := fp.offset;
      var done;
      error, done := ReadLocked(order, fp, vp, count, user, junk, stack);
      if error != 0 { return; }
      if done == 0 && vp.unionRoot {
        Below(stack, i);
        Descend(fp, vp, vp.covered, stack);
        vp := vp.covered;
        i := i + 1;
      } else {
        error := if baseOk then 0 else EFAULT;
        base := loff;
        retval := done;
        return;
      }
    }
  }

  lemma StackOk(stack: seq<Vnode>)
    requires UnionStack(stack)
    ensures Stack(Layers(stack)) && |Layers(stack)| == |stack| > 0
  {
  }

  lemma Below(stack: seq<Vnode>, i: nat)
    requires UnionStack(stack) && i < |stack| && stack[i].unionRoot
    ensures i + 1 < |stack| && stack[i].covered == stack[i + 1] && stack[i] != stack[i + 1]
  {
    assert Layers(stack)[|stack| - 1] == LayerOf(stack[|stack| - 1]);
  }

  /** From vn_lock to VOP_UNLOCK. */
  method ReadLocked(order: ByteOrder, fp: File, vp: Vnode, count: nat, user: array<byte>, junk: seq<byte>,
                    ghost stack: seq<Vnode>)
    returns (error: int, done: nat)
    requires vp in stack && forall v :: v in stack ==> !v.locked
    requires Adequate(LayerOf(vp), fp.offset, count, junk)
    modifies user, fp`offset, vp`locked
    ensures forall v :: v in stack ==> !v.locked && OtherRefs(fp, v) == old(OtherRefs(fp, v))
    ensures var r := ReadLayer(order, LayerOf(vp), old(fp.offset), count, junk, user.Length);
      && error == r.error && done == |r.out| && fp.offset == r.off
      && done <= user.Length && user[..done] == r.out
      && (error == 0 ==> user[..] == Splice(old(user[..]), 0, r.out))
  {
    hide ReadLayer, Splice;
    vp.Lock();
    error, done := ReadOne(order, fp, vp, count, user, junk);
    vp.Unlock();
  }

  /** VREF on the covered vnode, the file moved to it, vrele on the old one. */
  method Descend(fp: File, vp: Vnode, below: Vnode, ghost stack: seq<Vnode>)
    requires fp.vp == vp && vp != below && vp.usecount > 0 && vp in stack && below in stack
    modifies fp`vp, fp`offset, vp`usecount, below`usecount
    ensures fp.vp == below && fp.offset == 0 && below.usecount > 0
    ensures forall v :: v in stack ==> OtherRefs(fp, v) == old(OtherRefs(fp, v))
  {
    below.usecount := below.usecount + 1;
    fp.vp := below;
    fp.offset := 0;
    vp.usecount := vp.usecount - 1;
  }

  /** One layer read into the user's buffer. */
  method ReadOne(order: ByteOrder, fp: File, vp: Vnode, count: nat, user: array<byte>, junk: seq<byte>)
    returns (error: int, done: nat)
    requires vp.locked && Adequate(LayerOf(vp), fp.offset, count, junk)
    modifies user, fp`offset
    ensures var r := ReadLayer(order, LayerOf(vp), old(fp.offset), count, junk, user.Length);
      && error == r.error && done == |r.out| && fp.offset == r.off
      && done <= user.Length && user[..done] == r.out
      && (error == 0 ==> user[..] == Splice(old(user[..]), 0, r.out))
  {
    var off := fp.offset;
    var rd := vp.readdir(off, count);
    done := 0;
    error := rd.error;
    fp.offset := rd.next;
    var readcnt := |rd.data|;
    if order.BigEndian? && !vp.fullDtype {
      if error == 0 {
        error := CopyOut(rd.data, user, 0);   // from within VOP_READDIR
        if error == 0 {
          done := readcnt;
        } else {
          fp.offset := vp.fault(off, count);
        }
      }
    } else if error == 0 {
      var mem := rd.data + junk[readcnt..];
      var dirbuf := new byte[|mem|](k requires 0 <= k < |mem| => mem[k]);
      assert dirbuf[..] == mem;
      error := Rewrite(order, dirbuf, readcnt);
      if error == 0 {
        error := CopyOut(dirbuf[..readcnt], user, 0);
        if error == 0 { done := readcnt; }
      }
    }
  }
}
