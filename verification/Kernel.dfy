/** The kernel services the system calls lean on. */
module Kernel {
  import opened Bytes

  datatype Option<+T> = None | Some(value: T)

  const EIO := 5
  const EBADF := 9
  const ENOMEM := 12
  const EFAULT := 14
  const EISDIR := 21
  const EINVAL := 22
  const ENAMETOOLONG := 63

  /** As in <sys/errno.h>. */
  lemma ErrorNumbers()
    ensures EIO == 5 && EBADF == 9 && ENOMEM == 12 && EFAULT == 14 && EISDIR == 21 && EINVAL == 22 && ENAMETOOLONG == 63
  {
  }

  const MAXBSIZE := 65536

  /** The width of size_t, u_long and registers. */
  datatype Word = Ilp32 | Lp64

  function Mod(w: Word): (m: nat)
    ensures m == 0x1_0000_0000 || m == 0x1_0000_0000_0000_0000
  {
    if w.Ilp32? then 0x1_0000_0000 else 0x1_0000_0000_0000_0000
  }

  /** Conversion to a 32-bit int. */
  function Int32(x: int): (r: int)
    ensures -0x8000_0000 <= r < 0x8000_0000
    ensures -0x8000_0000 <= x < 0x8000_0000 ==> r == x
    ensures -0x1_8000_0000 <= x < -0x8000_0000 ==> r == x + 0x1_0000_0000
  {
    (x + 0x8000_0000) % 0x1_0000_0000 - 0x8000_0000
  }

  lemma Int32NonNegative(x: nat)
    ensures Int32(x) >= 0 <==> x % 0x1_0000_0000 < 0x8000_0000
    ensures Int32(x) >= 0 ==> Int32(x) == x % 0x1_0000_0000
  {
  }

  lemma Int32Offset(x: int) returns (k: int)
    ensures x == Int32(x) + k * 0x1_0000_0000
  {
    k := (x + 0x8000_0000) / 0x1_0000_0000;
  }

  lemma Int32Same(x: int, k: int)
    ensures Int32(x + k * 0x1_0000_0000) == Int32(x)
  {
    var m, q := 0x1_0000_0000, x + 0x8000_0000;
    ModUnique(q + k * m, m, q / m + k, q % m);
  }

  /** Int32 may be taken early or late. */
  lemma Int32Sub(x: int, y: int)
    ensures Int32(Int32(x) - y) == Int32(x - y)
    ensures Int32(y - Int32(x)) == Int32(y - x)
  {
    hide Int32;
    var k := Int32Offset(x);
    Int32Same(x - y, -k);
    Int32Same(y - x, k);
  }

  /** min() of <sys/systm.h> takes and returns u_int. */
  function MinU(a: nat, b: nat): (r: nat)
    ensures r <= a % 0x1_0000_0000 && r <= b % 0x1_0000_0000
    ensures r == a % 0x1_0000_0000 || r == b % 0x1_0000_0000
  {
    if a % 0x1_0000_0000 < b % 0x1_0000_0000 then a % 0x1_0000_0000 else b % 0x1_0000_0000
  }

  /** `user` is the user's memory from some address up to the first address
      copyout refuses.  A copy that crosses the end fails, and may have stored
      a part. */
  method CopyOut(src: seq<byte>, user: array<byte>, at: nat) returns (error: int)
    modifies user
    ensures error == if at + |src| <= user.Length then 0 else EFAULT
    ensures error == 0 ==> user[..] == Splice(old(user[..]), at, src)
    ensures forall i :: 0 <= i < at && i < user.Length ==> user[i] == old(user[i])
  {
    forall i | at <= i < at + |src| && i < user.Length {
      user[i] := src[i - at];
    }
    error := if at + |src| <= user.Length then 0 else EFAULT;
  }
}
