/** Open files, vnodes and directory records as the directory system calls
    see them. */
module Vfs {
  import opened Bytes
  import opened Kernel

  // struct dirent, and struct dirent12 of the older systems
  const NATIVE_ALIGN := 8
  const FILENO_SIZE := 8
  const RECLEN_OFF := 8
  const NAMLEN_OFF := 10
  const TYPE_OFF := 12
  const NAME_OFF := 13
  const OLD_NAME_OFF := 8
  const OLD_NAME_SIZE := 256

  /** An n-byte field at address `p`. */
  function Field(order: ByteOrder, m: seq<byte>, p: nat, n: nat): nat
    requires p + n <= |m|
  {
    Load(order, m[p..p + n])
  }

  /** One whole native record: the length it states, aligned, with room for
      the fields and the NUL-terminated name. */
  predicate WellFormed(order: ByteOrder, r: seq<byte>) {
    && |r| > NAME_OFF
    && |r| % NATIVE_ALIGN == 0
    && Field(order, r, RECLEN_OFF, 2) == |r|
    && NAME_OFF + Field(order, r, NAMLEN_OFF, 2) + 1 <= |r|
  }

  /** A native record, field by field: inode number, record length, name length,
      type, name and padding. */
  function NativeRecord(order: ByteOrder, fileno: nat, dtype: byte, name: seq<byte>, pad: seq<byte>): (r: seq<byte>)
    ensures |r| == 13 + |name| + |pad|
  {
    Store(order, 8, fileno) + Store(order, 2, 13 + |name| + |pad|) + Store(order, 2, |name|) + [dtype] + name + pad
  }

  lemma NativeFields(order: ByteOrder, fileno: nat, dtype: byte, name: seq<byte>, pad: seq<byte>)
    ensures var r := NativeRecord(order, fileno, dtype, name, pad);
      && r[0..8] == Store(order, 8, fileno) && r[8..10] == Store(order, 2, |r|) && r[10..12] == Store(order, 2, |name|)
      && r[12] == dtype && r[13..13 + |name|] == name && r[13..] == name + pad
  {
    hide Store;
    var a, b, c := Store(order, 8, fileno), Store(order, 2, 13 + |name| + |pad|), Store(order, 2, |name|);
    var r, t := NativeRecord(order, fileno, dtype, name, pad), [dtype] + name + pad;
    Regrouped(a, b, c, dtype, name, pad);
    Middle([], a, b + c + t);
    Middle(a, b, c + t);
    Middle(a + b, c, t);
    Middle(a + b + c, [dtype], name + pad);
    Middle(a + b + c + [dtype], name, pad);
    Middle(a + b + c + [dtype], name + pad, []);
    assert [] + a + (b + c + t) == r && r[12] == r[12..13][0];
    assert a + b + c + [dtype] + (name + pad) + [] == r;
  }

  lemma Regrouped(a: seq<byte>, b: seq<byte>, c: seq<byte>, d: byte, name: seq<byte>, pad: seq<byte>)
    ensures var r := a + b + c + [d] + name + pad;
      && a + (b + c + ([d] + name + pad)) == r && a + b + (c + ([d] + name + pad)) == r
      && a + b + c + ([d] + name + pad) == r && a + b + c + [d] + (name + pad) == r
  {
  }

  lemma Powers()
    ensures Pow256(2) == 0x1_0000 && Pow256(4) == 0x1_0000_0000
  {
    assert Pow256(1) == 256 && Pow256(3) == 256 * Pow256(2);
  }

  lemma NativeLoads(order: ByteOrder, fileno: nat, len: nat, namlen: nat)
    requires fileno < 0x1_0000_0000_0000_0000 && len < 0x1_0000 && namlen < 0x1_0000
    ensures Load(order, Store(order, 8, fileno)) == fileno
    ensures Load(order, Store(order, 2, len)) == len && Load(order, Store(order, 2, namlen)) == namlen
  {
    hide Store, Load;
    LoadStore(order, 8, fileno);
    LoadStore(order, 2, len);
    LoadStore(order, 2, namlen);
    Powers();
    assert Pow256(6) == 0x1_0000_0000_0000 && Pow256(8) == 0x1_0000_0000_0000_0000 by {
      assert Pow256(5) == 256 * Pow256(4) && Pow256(7) == 256 * Pow256(6);
    }
  }

  lemma NativeWellFormed(order: ByteOrder, fileno: nat, dtype: byte, name: seq<byte>, pad: seq<byte>)
    requires fileno < 0x1_0000_0000_0000_0000 && pad != []
    requires (13 + |name| + |pad|) % 8 == 0 && 13 + |name| + |pad| < 0x1_0000
    ensures WellFormed(order, NativeRecord(order, fileno, dtype, name, pad))
    ensures Load(order, Store(order, 8, fileno)) == fileno && Load(order, Store(order, 2, |name|)) == |name|
  {
    hide Store, Load, NativeRecord;
    NativeFields(order, fileno, dtype, name, pad);
    NativeLoads(order, fileno, 13 + |name| + |pad|, |name|);
  }

  predicate AllWellFormed(order: ByteOrder, rs: seq<seq<byte>>) {
    forall i :: 0 <= i < |rs| ==> WellFormed(order, rs[i])
  }

  /** What VOP_READDIR leaves behind: an error or some bytes, the offset it
      advanced to, and, if asked and able, a cookie per record. */
  datatype ReadResult = ReadResult(error: int, data: seq<byte>, next: int, cookies: Option<nat -> int>)

  /** A directory on disk: its records and the offset at which reading resumes
      after each prefix of them.  File systems without cookies number offsets
      by bytes. */
  datatype Dir = Dir(recs: seq<seq<byte>>, offs: seq<int>, cookies: bool)

  ghost predicate ValidDir(order: ByteOrder, d: Dir) {
    && |d.offs| == |d.recs| + 1
    && AllWellFormed(order, d.recs)
    && (forall i, j :: 0 <= i < j < |d.offs| ==> d.offs[i] != d.offs[j])
    && (!d.cookies ==> forall i :: 0 <= i < |d.recs| ==> d.offs[i + 1] == d.offs[i] + |d.recs[i]|)
  }

  /** The contract of VOP_READDIR: whole records i..j, as many as it likes that
      fit in `n` bytes, but at least one if there is one and it fits. */
  ghost predicate Reads(d: Dir, i: nat, j: nat, n: nat, rd: ReadResult)
    requires |d.offs| == |d.recs| + 1
  {
    && i <= j <= |d.recs|
    && rd.error == 0
    && rd.data == Flatten(d.recs[i..j])
    && |rd.data| <= n
    && rd.next == d.offs[j]
    && (i < |d.recs| && |d.recs[i]| <= n ==> i < j)
  }

  /** The cookies that come with records i..j, one each, or none. */
  ghost predicate Cookies(d: Dir, i: nat, j: nat, rd: ReadResult)
    requires |d.offs| == |d.recs| + 1 && i <= j <= |d.recs|
  {
    && (d.cookies <==> rd.cookies.Some?)
    && (d.cookies ==> forall k: nat :: k < j - i ==> rd.cookies.value(k) == d.offs[i + 1 + k])
  }

  class Vnode {
    const isDir: bool
    const unionRoot: bool                    // VV_ROOT of a MNT_UNION mount
    const fullDtype: bool                    // IMNT_DTYPE of its mount
    const covered: Vnode?                    // mnt_vnodecovered of its mount
    const readdir: (int, nat) -> ReadResult  // VOP_READDIR at an offset, for n bytes
    const fault: (int, nat) -> int           // where it leaves the offset if the user's memory ends
    var usecount: nat
    var locked: bool

    constructor (isDir: bool, unionRoot: bool, fullDtype: bool, covered: Vnode?,
                 readdir: (int, nat) -> ReadResult, fault: (int, nat) -> int)
      ensures this.isDir == isDir && this.unionRoot == unionRoot && this.fullDtype == fullDtype
      ensures this.covered == covered && this.readdir == readdir && this.fault == fault
      ensures usecount == 1 && !locked
    {
      this.isDir, this.unionRoot, this.fullDtype := isDir, unionRoot, fullDtype;
      this.covered, this.readdir, this.fault := covered, readdir, fault;
      usecount, locked := 1, false;
    }

    method Lock()
      requires !locked
      modifies `locked
      ensures locked
    {
      locked := true;
    }

    method Unlock()
      requires locked
      modifies `locked
      ensures !locked
    {
      locked := false;
    }
  }

  class File {
    const readable: bool
    var vp: Vnode
    var offset: int
    var users: nat   // references taken by fd_getvnode and not yet put

    constructor (readable: bool, vp: Vnode)
      ensures this.readable == readable && this.vp == vp && offset == 0 && users == 0
    {
      this.readable, this.vp, offset, users := readable, vp, 0, 0;
    }
  }

  /** What fd_getvnode finds for a descriptor. */
  datatype Fd = NoVnode(error: int) | Open(fp: File)
}
