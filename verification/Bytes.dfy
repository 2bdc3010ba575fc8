/** Bytes and multi-byte integers, in either byte order. */
module Bytes {
  type byte = x: int | 0 <= x < 256

  datatype ByteOrder = LittleEndian | BigEndian

  /** The low `n` bytes of `v`, as a store of an n-byte integer leaves them. */
  function Store(order: ByteOrder, n: nat, v: nat): (s: seq<byte>)
    ensures |s| == n
  {
    if n == 0 then []
    else if order.LittleEndian? then [v % 256] + Store(order, n - 1, v / 256)
    else Store(order, n - 1, v / 256) + [v % 256]
  }

  /** The integer a load of all of `s` yields. */
  function Load(order: ByteOrder, s: seq<byte>): nat {
    if s == [] then 0
    else if order.LittleEndian? then s[0] + 256 * Load(order, s[1..])
    else Load(order, s[..|s| - 1]) * 256 + s[|s| - 1]
  }

  function Pow256(n: nat): (p: nat)
    ensures p > 0
  {
    if n == 0 then 1 else 256 * Pow256(n - 1)
  }

  lemma ModSplit(v: nat, p: nat)
    requires p > 0
    ensures v % (256 * p) == v % 256 + 256 * (v / 256 % p)
  {
    var q, r := v / 256, v % 256;
    var m := r + 256 * (q % p);
    assert v == 256 * p * (q / p) + m by {
      assert q == p * (q / p) + q % p;
      assert 256 * q == 256 * (p * (q / p)) + 256 * (q % p);
      assert 256 * (p * (q / p)) == 256 * p * (q / p);
    }
    ModUnique(v, 256 * p, q / p, m);
  }

  lemma SmallMultiple(d: int, k: int, e: int)
    requires -d < e < d && d * k == e
    ensures k == 0
  {
    var above, below := d * (k - 1), d * (-k - 1);
    assert above == e - d && below == -e - d;
    assert !(k >= 1) && !(k <= -1);
  }

  lemma ModUnique(v: int, d: int, q: int, m: int)
    requires 0 <= m < d && v == d * q + m
    ensures v % d == m
  {
    var a, b := v / d, v % d;
    assert v == d * a + b;
    assert d * (a - q) == m - b;
    SmallMultiple(d, a - q, m - b);
  }

  /** A quotient and a remainder are what they multiply up to. */
  lemma Quotient(w: nat, d: nat, q: nat, r: nat)
    requires 0 < d && r < d && w == d * q + r
    ensures w / d == q && w % d == r
  {
    ModUnique(w, d, q, r);
    assert d * (w / d) == d * q;
    SmallMultiple(d, w / d - q, 0);
  }

  /** Byte `k` of a value, counted from the low end: where it is stored. */
  lemma {:induction false} ByteAt(n: nat, v: nat, k: nat)
    requires k < n
    ensures Store(LittleEndian, n, v)[k] == v / Pow256(k) % 256
    ensures Store(BigEndian, n, v)[n - 1 - k] == v / Pow256(k) % 256
  {
    hide Store;
    StoreEnds(n, v);
    if k > 0 {
      ByteAt(n - 1, v / 256, k - 1);
      DivDiv(v, Pow256(k - 1));
    }
  }

  lemma StoreEnds(n: nat, v: nat)
    requires n > 0
    ensures Store(LittleEndian, n, v)[0] == v % 256 && Store(LittleEndian, n, v)[1..] == Store(LittleEndian, n - 1, v / 256)
    ensures Store(BigEndian, n, v)[n - 1] == v % 256 && Store(BigEndian, n, v)[..n - 1] == Store(BigEndian, n - 1, v / 256)
  {
  }

  lemma DivDiv(v: nat, p: nat)
    requires p > 0
    ensures v / (256 * p) == v / 256 / p
  {
    var q := v / 256;
    var a, s := q / p, q % p;
    assert 256 * q == 256 * (p * a) + 256 * s && 256 * (p * a) == 256 * p * a;
    Quotient(v, 256 * p, a, 256 * s + v % 256);
  }

  /** Loading what was stored gives the value truncated to its width. */
  lemma {:induction false} LoadStore(order: ByteOrder, n: nat, v: nat)
    ensures Load(order, Store(order, n, v)) == v % Pow256(n)
  {
    if n > 0 {
      LoadStore(order, n - 1, v / 256);
      ModSplit(v, Pow256(n - 1));
      var s := Store(order, n, v);
      if order.LittleEndian? {
        assert s[1..] == Store(order, n - 1, v / 256);
      } else {
        assert s[..n - 1] == Store(order, n - 1, v / 256);
      }
    }
  }

  /** Concatenation of a list of byte strings. */
  function Flatten(rs: seq<seq<byte>>): seq<byte> {
    if rs == [] then [] else rs[0] + Flatten(rs[1..])
  }

  lemma {:induction false} FlattenAppend(a: seq<seq<byte>>, b: seq<seq<byte>>)
    ensures Flatten(a + b) == Flatten(a) + Flatten(b)
  {
    if a == [] {
      assert a + b == b;
    } else {
      assert (a + b)[1..] == a[1..] + b;
      FlattenAppend(a[1..], b);
    }
  }

  function Zeros(n: nat): (s: seq<byte>)
    ensures |s| == n && forall i :: 0 <= i < n ==> s[i] == 0
  {
    seq(n, _ => 0)
  }

  /** `buf` with `src` stored from index `at` on. */
  function Splice(buf: seq<byte>, at: nat, src: seq<byte>): (r: seq<byte>)
    requires at + |src| <= |buf|
    ensures |r| == |buf|
  {
    buf[..at] + src + buf[at + |src|..]
  }

  lemma SplicePrefix(buf: seq<byte>, out: seq<byte>)
    requires |out| <= |buf|
    ensures Splice(buf, 0, out)[..|out|] == out
  {
  }

  lemma SpliceNothing(buf: seq<byte>)
    ensures Splice(buf, 0, []) == buf
  {
  }

  lemma Middle(x: seq<byte>, y: seq<byte>, z: seq<byte>)
    ensures (x + y + z)[|x|..|x| + |y|] == y
  {
  }

  lemma SliceOfSlice<T>(m: seq<T>, p: nat, q: nat, a: nat, b: nat)
    requires p <= q <= |m| && a <= b <= q - p
    ensures m[p..q][a..b] == m[p + a..p + b]
  {
    var s, t := m[p..q][a..b], m[p + a..p + b];
    forall i | 0 <= i < b - a ensures s[i] == t[i] {
      assert s[i] == m[p..q][a + i];
    }
  }

  /** The first of the byte strings laid end to end in m[p..end]. */
  lemma FirstRecord(m: seq<byte>, p: nat, end: nat, rs: seq<seq<byte>>)
    requires p <= end <= |m| && rs != [] && m[p..end] == Flatten(rs)
    ensures p + |rs[0]| <= end
    ensures m[p..p + |rs[0]|] == rs[0]
    ensures m[p + |rs[0]|..end] == Flatten(rs[1..])
  {
    var s, n := m[p..end], |rs[0]|;
    assert s[0..n] == rs[0] && s[n..end - p] == Flatten(rs[1..]);
    SliceOfSlice(m, p, end, 0, n);
    SliceOfSlice(m, p, end, n, end - p);
  }

  /** Two stores, the second where the first one ended, make one. */
  lemma SpliceSplice(buf: seq<byte>, at: nat, a: seq<byte>, b: seq<byte>)
    requires at + |a| + |b| <= |buf|
    ensures Splice(Splice(buf, at, a), at + |a|, b) == Splice(buf, at, a + b)
  {
    var s := Splice(buf, at, a);
    assert s[..at + |a|] == buf[..at] + a && s[at + |a| + |b|..] == buf[at + |a| + |b|..];
    assert buf[..at] + a + b == buf[..at] + (a + b);
  }
}
