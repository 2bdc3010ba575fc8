/** What compat_ifconf reports: the records of all interfaces, and which of them
    a buffer of a given size receives. */
module IfConfSpec {
  import opened Bytes
  import opened Kernel

  const NAMESIZE := 16   // sizeof ifr_name
  const SASIZE := 16     // sizeof struct sockaddr
  const SZ := NAMESIZE + SASIZE

  type sockaddr = s: seq<byte> | 2 <= |s| < 256 witness [2, 0]   // sa_len bytes, the second is sa_family

  datatype Interface = Interface(name: seq<byte>, addrs: seq<sockaddr>)

  predicate ShortName(name: seq<byte>) {
    |name| < NAMESIZE
  }

  predicate AllShort(ifs: seq<Interface>) {
    forall i :: 0 <= i < |ifs| ==> ShortName(ifs[i].name)
  }

  /** strncpy into ifr_name. */
  function Named(name: seq<byte>): (s: seq<byte>)
    ensures |s| == NAMESIZE
  {
    if |name| < NAMESIZE then name + Zeros(NAMESIZE - |name|) else name[..NAMESIZE]
  }

  /** One pass of a loop body: an address of an interface, or an interface
      without any. */
  datatype Item = Addr(name: seq<byte>, sa: sockaddr) | NoAddr(name: seq<byte>)

  function AddrItems(name: seq<byte>, addrs: seq<sockaddr>): seq<Item> {
    if addrs == [] then [] else [Addr(name, addrs[0])] + AddrItems(name, addrs[1..])
  }

  function ItemsOf(ifc: Interface): seq<Item> {
    if ifc.addrs == [] then [NoAddr(ifc.name)] else AddrItems(ifc.name, ifc.addrs)
  }

  function Items(ifs: seq<Interface>): seq<Item> {
    if ifs == [] then [] else ItemsOf(ifs[0]) + Items(ifs[1..])
  }

  /** The old command (OOSIOCGIFCONF) leaves out addresses that do not fit. */
  predicate Eligible(old43: bool, it: Item) {
    it.Addr? && old43 ==> |it.sa| <= SASIZE
  }

  /** ifr_addr is one variable: a short address leaves the tail of the one
      before it in place. */
  function NextAddr(order: ByteOrder, old43: bool, it: Item, addr: seq<byte>): (r: seq<byte>)
    requires |addr| == SASIZE
    ensures |r| == SASIZE
  {
    match it
    case NoAddr(_) => Zeros(SASIZE)
    case Addr(_, sa) =>
      if |sa| > SASIZE then addr
      else
        var a := sa + addr[|sa|..];
        if old43 then Store(order, 2, sa[1]) + a[2..] else a
  }

  /** A record: the name and ifr_addr, or the whole of a longer address. */
  function RecordOf(order: ByteOrder, old43: bool, it: Item, addr: seq<byte>): (r: seq<byte>)
    requires |addr| == SASIZE
    ensures SZ <= |r| < SZ + 256
  {
    if it.Addr? && !old43 && |it.sa| > SASIZE then Named(it.name) + it.sa
    else Named(it.name) + NextAddr(order, old43, it, addr)
  }

  function Records(order: ByteOrder, old43: bool, items: seq<Item>, addr: seq<byte>): (rs: seq<seq<byte>>)
    requires |addr| == SASIZE
    ensures forall i :: 0 <= i < |rs| ==> SZ <= |rs[i]| < SZ + 256
    decreases items
  {
    if items == [] then []
    else
      (if Eligible(old43, items[0]) then [RecordOf(order, old43, items[0], addr)] else []) +
      Records(order, old43, items[1..], NextAddr(order, old43, items[0], addr))
  }

  predicate Sizes(rs: seq<seq<byte>>) {
    forall i :: 0 <= i < |rs| ==> SZ <= |rs[i]| < SZ + 256
  }

  // ---- what a record holds, byte by byte -------------------------------------------

  /** Items that make a record: all but long addresses for the old command. */
  function Count(old43: bool, items: seq<Item>): nat {
    if items == [] then 0
    else (if items[0].Addr? && old43 && |items[0].sa| > 16 then 0 else 1) + Count(old43, items[1..])
  }

  /** The record of an item: its name, padded with NULs, then zeros, the address,
      or, for the old command, the family as a 16-bit number and the rest of it. */
  ghost predicate Holds(order: ByteOrder, old43: bool, it: Item, r: seq<byte>) {
    && |r| >= 32
    && |it.name| < 16 && r[..|it.name|] == it.name && (forall i :: |it.name| <= i < 16 ==> r[i] == 0)
    && (it.NoAddr? ==> |r| == 32 && forall i :: 16 <= i < 32 ==> r[i] == 0)
    && (it.Addr? && |it.sa| > 16 ==> r[16..] == it.sa)
    && (it.Addr? && |it.sa| <= 16 ==> |r| == 32 && r[18..16 + |it.sa|] == it.sa[2..])
    && (it.Addr? && |it.sa| <= 16 ==>
          r[16..18] == if !old43 then it.sa[..2] else if order.LittleEndian? then [it.sa[1], 0] else [0, it.sa[1]])
  }

  lemma Family(order: ByteOrder, f: byte)
    ensures Store(order, 2, f) == if order.LittleEndian? then [f, 0] else [0, f]
  {
    assert Store(order, 0, 0) == [] && Store(order, 1, f / 256) == [0];
  }

  lemma RecordHolds(order: ByteOrder, old43: bool, it: Item, addr: seq<byte>)
    requires |addr| == SASIZE && |it.name| < 16 && (it.Addr? && old43 ==> |it.sa| <= 16)
    ensures Holds(order, old43, it, RecordOf(order, old43, it, addr))
  {
    hide Store, Named;
    var r, a := RecordOf(order, old43, it, addr), NextAddr(order, old43, it, addr);
    NamedIs(it.name);
    assert r[..16] == Named(it.name);
    assert r[..|it.name|] == r[..16][..|it.name|] && forall i :: 0 <= i < 16 ==> r[i] == r[..16][i];
    if it.Addr? && |it.sa| > 16 {
      assert r[16..] == it.sa;
    } else {
      assert r[16..] == a && r[16..18] == a[..2] && forall i :: 16 <= i < 32 ==> r[i] == a[i - 16];
      if it.Addr? {
        ShortAddr(order, old43, it, addr);
        assert r[18..16 + |it.sa|] == a[2..|it.sa|];
      }
    }
  }

  lemma ShortAddr(order: ByteOrder, old43: bool, it: Item, addr: seq<byte>)
    requires |addr| == SASIZE && it.Addr? && |it.sa| <= 16
    ensures var a := NextAddr(order, old43, it, addr);
      && a[2..|it.sa|] == it.sa[2..]
      && a[..2] == if !old43 then it.sa[..2] else if order.LittleEndian? then [it.sa[1], 0] else [0, it.sa[1]]
  {
    hide Store;
    var sa := it.sa;
    Family(order, sa[1]);
    var b := sa + addr[|sa|..];
    assert b[2..|sa|] == sa[2..] && b[..2] == sa[..2];
    var f := Store(order, 2, sa[1]);
    assert (f + b[2..])[..2] == f && (f + b[2..])[2..|sa|] == b[2..|sa|];
  }

  /** What ifr_addr holds after an item: zeros, the same, or the address with the
      tail of what was there. */
  lemma IfrAddr(order: ByteOrder, old43: bool, it: Item, addr: seq<byte>)
    requires |addr| == SASIZE
    ensures var a := NextAddr(order, old43, it, addr);
      && (it.NoAddr? ==> forall i :: 0 <= i < 16 ==> a[i] == 0)
      && (it.Addr? && |it.sa| > 16 ==> a == addr)
      && (it.Addr? && |it.sa| <= 16 ==> a[|it.sa|..] == addr[|it.sa|..])
  {
    hide Store;
    if it.Addr? && |it.sa| <= 16 {
      var b := it.sa + addr[|it.sa|..];
      assert b[|it.sa|..] == addr[|it.sa|..];
      assert (Store(order, 2, it.sa[1]) + b[2..])[|it.sa|..] == b[|it.sa|..];
    }
  }

  lemma NamedIs(name: seq<byte>)
    requires |name| < 16
    ensures Named(name)[..|name|] == name && forall i :: |name| <= i < 16 ==> Named(name)[i] == 0
  {
  }

  lemma RecordsStep(order: ByteOrder, old43: bool, items: seq<Item>, addr: seq<byte>)
    requires |addr| == SASIZE && items != []
    ensures var rest := Records(order, old43, items[1..], NextAddr(order, old43, items[0], addr));
            Records(order, old43, items, addr) ==
            if Eligible(old43, items[0]) then [RecordOf(order, old43, items[0], addr)] + rest else rest
  {
  }

  lemma CountStep(old43: bool, items: seq<Item>)
    requires items != []
    ensures Count(old43, items) == (if Eligible(old43, items[0]) then 1 else 0) + Count(old43, items[1..])
  {
  }

  /** The records are those of the items, in their order, each with its content. */
  lemma {:induction false} RecordContent(order: ByteOrder, old43: bool, items: seq<Item>, addr: seq<byte>, n: nat)
    requires |addr| == SASIZE && n < |items| && |items[n].name| < 16
    requires items[n].Addr? && old43 ==> |items[n].sa| <= 16
    ensures |Records(order, old43, items, addr)| == Count(old43, items)
    ensures var k := Count(old43, items[..n]);
      k < Count(old43, items) && Holds(order, old43, items[n], Records(order, old43, items, addr)[k])
    decreases items
  {
    hide RecordOf, NextAddr, Holds, Records, Count;
    var it, rest, next := items[0], items[1..], NextAddr(order, old43, items[0], addr);
    RecordsStep(order, old43, items, addr);
    CountStep(old43, items);
    RecordsCounted(order, old43, items, addr);
    if n == 0 {
      CountNone(old43, items[..0]);
      RecordHolds(order, old43, it, addr);
    } else {
      assert items[..n][0] == it && items[..n][1..] == rest[..n - 1];
      CountStep(old43, items[..n]);
      RecordContent(order, old43, rest, next, n - 1);
    }
  }

  lemma CountNone(old43: bool, items: seq<Item>)
    requires items == []
    ensures Count(old43, items) == 0
  {
  }

  lemma {:induction false} RecordsCounted(order: ByteOrder, old43: bool, items: seq<Item>, addr: seq<byte>)
    requires |addr| == SASIZE
    ensures |Records(order, old43, items, addr)| == Count(old43, items)
    decreases items
  {
    hide RecordOf, NextAddr;
    if items != [] {
      RecordsCounted(order, old43, items[1..], NextAddr(order, old43, items[0], addr));
    }
  }

  /** Items of the interfaces before the `i`-th. */
  function Before(ifs: seq<Interface>, i: nat): nat
    requires i <= |ifs|
  {
    if i == 0 then 0 else Before(ifs, i - 1) + if ifs[i - 1].addrs == [] then 1 else |ifs[i - 1].addrs|
  }

  lemma {:induction false} ItemsAppend(a: seq<Interface>, b: seq<Interface>)
    ensures Items(a + b) == Items(a) + Items(b)
    decreases a
  {
    hide ItemsOf;
    if a == [] {
      assert a + b == b;
    } else {
      assert (a + b)[0] == a[0] && (a + b)[1..] == a[1..] + b;
      ItemsAppend(a[1..], b);
      var x, y, z := ItemsOf(a[0]), Items(a[1..]), Items(b);
      assert x + (y + z) == x + y + z;
    }
  }

  lemma {:induction false} BeforeIs(ifs: seq<Interface>, i: nat)
    requires i <= |ifs|
    ensures |Items(ifs[..i])| == Before(ifs, i)
  {
    hide AddrItems;
    if i == 0 {
      assert ifs[..0] == [];
    } else {
      BeforeIs(ifs, i - 1);
      var ifc := ifs[i - 1];
      assert ifs[..i] == ifs[..i - 1] + [ifc];
      ItemsAppend(ifs[..i - 1], [ifc]);
      assert [ifc][1..] == [] && Items([ifc]) == ItemsOf(ifc) + [];
      AddrItemsAre(ifc.name, ifc.addrs);
    }
  }

  lemma {:induction false} AddrItemsAre(name: seq<byte>, addrs: seq<sockaddr>)
    ensures |AddrItems(name, addrs)| == |addrs|
    ensures forall j :: 0 <= j < |addrs| ==> AddrItems(name, addrs)[j] == Addr(name, addrs[j])
  {
    if addrs != [] {
      AddrItemsAre(name, addrs[1..]);
    }
  }

  /** Where an address, or an interface without any, is among the items. */
  lemma ItemAt(ifs: seq<Interface>, i: nat, j: nat)
    requires i < |ifs| && (j < |ifs[i].addrs| || (ifs[i].addrs == [] && j == 0))
    ensures |Items(ifs)| == Before(ifs, |ifs|) && Before(ifs, i) + j < |Items(ifs)|
    ensures Items(ifs)[Before(ifs, i) + j] ==
            if ifs[i].addrs == [] then NoAddr(ifs[i].name) else Addr(ifs[i].name, ifs[i].addrs[j])
  {
    hide AddrItems;
    BeforeIs(ifs, i);
    BeforeIs(ifs, |ifs|);
    ItemsAppend(ifs[..i], ifs[i..]);
    assert ifs[..i] + ifs[i..] == ifs && ifs[..|ifs|] == ifs && ifs[i..][0] == ifs[i];
    AddrItemsAre(ifs[i].name, ifs[i].addrs);
  }

  /** So the record of an address, or of an interface without any, holds what the
      interface says, in the place of the interface and the address. */
  lemma AddressRecord(order: ByteOrder, old43: bool, ifs: seq<Interface>, stack: seq<byte>, i: nat, j: nat)
    requires |stack| == SASIZE && i < |ifs| && |ifs[i].name| < 16
    requires ifs[i].addrs == [] ==> j == 0
    requires ifs[i].addrs != [] ==> j < |ifs[i].addrs| && (old43 ==> |ifs[i].addrs[j]| <= 16)
    ensures var items, rs := Items(ifs), Records(order, old43, Items(ifs), stack);
      && Before(ifs, i) + j < |items| && |rs| == Count(old43, items)
      && Count(old43, items[..Before(ifs, i) + j]) < |rs|
      && Holds(order, old43, if ifs[i].addrs == [] then NoAddr(ifs[i].name) else Addr(ifs[i].name, ifs[i].addrs[j]),
               rs[Count(old43, items[..Before(ifs, i) + j])])
  {
    hide Holds, Records, Items, Before, Count;
    ItemAt(ifs, i, j);
    RecordContent(order, old43, Items(ifs), stack, Before(ifs, i) + j);
  }

  // ---- the space budget ---------------------------------------------------------

  type int32 = x: int | -0x8000_0000 <= x < 0x8000_0000

  /** `space` as a record's size is compared with it: what a long address takes
      beyond sizeof(sockaddr) is charged first. */
  function Checked(space: int32, r: seq<byte>): int32 {
    Int32(space - (|r| - SZ))
  }

  /** The bytes written for these records from `space` on, and `space` after.
      `space` is a 32-bit int that goes on shrinking and wraps around. */
  function Written(rs: seq<seq<byte>>, space: int32): (seq<byte>, int32)
    decreases rs
  {
    if rs == [] then ([], space)
    else
      var s := Checked(space, rs[0]);
      var rest := Written(rs[1..], Int32(s - SZ));
      ((if s >= SZ then rs[0] else []) + rest.0, rest.1)
  }

  function Total(rs: seq<seq<byte>>): nat {
    if rs == [] then 0 else |rs[0]| + Total(rs[1..])
  }

  /** The longest prefix of the records that fits in `n` bytes. */
  function Fitting(rs: seq<seq<byte>>, n: int): seq<seq<byte>>
    decreases rs
  {
    if rs == [] || |rs[0]| > n then [] else [rs[0]] + Fitting(rs[1..], n - |rs[0]|)
  }

  lemma {:induction false} FittingIsLongestPrefix(rs: seq<seq<byte>>, n: int)
    ensures var p := Fitting(rs, n);
      && p <= rs
      && (n >= 0 ==> Total(p) <= n)
      && forall q: seq<seq<byte>> {:trigger Total(q)} :: q <= rs && Total(q) <= n ==> |q| <= |p|
    decreases rs
  {
    if rs != [] && |rs[0]| <= n {
      var p := Fitting(rs[1..], n - |rs[0]|);
      FittingIsLongestPrefix(rs[1..], n - |rs[0]|);
      assert ([rs[0]] + p)[1..] == p;
      forall q: seq<seq<byte>> | q <= rs && Total(q) <= n ensures |q| <= |p| + 1 {
        if q != [] {
          assert q[0] == rs[0] && q[1..] <= rs[1..] && Total(q[1..]) <= n - |rs[0]|;
          assert |q[1..]| <= |p|;
        }
      }
    } else {
      forall q: seq<seq<byte>> | q <= rs && Total(q) <= n ensures |q| <= 0 {
      }
    }
  }

  lemma {:induction false} SpaceLeft(rs: seq<seq<byte>>, space: int32)
    ensures Written(rs, space).1 == Int32(space - Total(rs))
    decreases rs
  {
    hide Int32;
    if rs == [] {
    } else {
      var r := rs[0];
      SpaceLeft(rs[1..], Int32(Checked(space, r) - SZ));
      Int32Sub(space - (|r| - SZ), SZ);
      Int32Sub(space - |r|, Total(rs[1..]));
      assert Int32(Checked(space, r) - SZ) == Int32(space - |r|);
      assert space - |r| - Total(rs[1..]) == space - Total(rs);
    }
  }

  /** The length reported at the end, for a null and a real buffer. */
  function Reported(len: int, isNull: bool, left: int): int32 {
    if isNull then Int32(-left) else Int32(len - left)
  }

  /** On success the length reported is the total size of all records, whatever
      the buffer: null, short or long. */
  lemma ReportsTotal(rs: seq<seq<byte>>, len: int32, isNull: bool)
    ensures Reported(len, isNull, Written(rs, if isNull then 0 else len).1) == Int32(Total(rs))
  {
    hide Int32;
    var space := if isNull then 0 else len;
    SpaceLeft(rs, space);
    Int32Sub(space - Total(rs), space);
    assert space - (space - Total(rs)) == Total(rs);
  }

  /** `space` does not wrap around before it is compared for the last time. */
  predicate NoWrap(rs: seq<seq<byte>>, space: int) {
    rs == [] || space - Total(rs) + SZ >= -0x8000_0000
  }

  lemma {:induction false} NothingFits(rs: seq<seq<byte>>, n: int)
    requires Sizes(rs) && n < SZ
    ensures Fitting(rs, n) == []
  {
  }

  /** When the first record's check wraps around, it is written though nothing
      fits; when the charge after it wraps, so is the next one. */
  lemma WrapWrites(rs: seq<seq<byte>>, space: int32)
    requires Sizes(rs) && rs != [] && space - |rs[0]| < -0x8000_0000
    ensures Fitting(rs, space) == []
    ensures Written(rs, space).0 == [] <==> NoWrap(rs, space)
  {
    var r, rest := rs[0], rs[1..];
    var s := space - (|r| - SZ);
    NothingFits(rs, space);
    if s < -0x8000_0000 {
      assert Checked(space, r) == s + 0x1_0000_0000 >= SZ;
      assert Written(rs, space).0[0] == r[0];
      assert Total(rs) >= |r|;
    } else {
      assert Checked(space, r) == s;
      var u := Int32(s - SZ);
      assert u == s - SZ + 0x1_0000_0000;
      assert Total(rs) == |r| + Total(rest);
      if rest == [] {
        assert Written(rs, space).0 == [] + Written(rest, u).0;
      } else {
        assert rest[0] == rs[1];
        assert Checked(u, rest[0]) >= SZ;
        assert Written(rest, u).0[0] == rest[0][0];
        assert Total(rest) >= |rest[0]|;
      }
    }
  }

  lemma PrefixStep(r: seq<byte>, w: seq<byte>, p: seq<seq<byte>>)
    ensures r + w == Flatten([r] + p) <==> w == Flatten(p)
  {
    assert ([r] + p)[1..] == p;
    assert (r + Flatten(p))[|r|..] == Flatten(p) && (r + w)[|r|..] == w;
  }

  /** What is written is exactly the longest prefix of records that fits, if and
      only if the budget does not wrap around. */
  lemma {:induction false} WritesLongestPrefixIff(rs: seq<seq<byte>>, space: int32)
    requires Sizes(rs)
    ensures Written(rs, space).0 == Flatten(Fitting(rs, space)) <==> NoWrap(rs, space)
    decreases rs
  {
    hide Int32;
    if rs != [] {
      var r, rest := rs[0], rs[1..];
      var s := space - (|r| - SZ);
      if s - SZ < -0x8000_0000 {
        WrapWrites(rs, space);
      } else {
        assert Checked(space, r) == s && Int32(s - SZ) == s - SZ;
        assert Total(rs) == |r| + Total(rest);
        assert forall i :: 0 <= i < |rest| ==> rest[i] == rs[i + 1];
        WritesLongestPrefixIff(rest, s - SZ);
        if s >= SZ {
          PrefixStep(r, Written(rest, s - SZ).0, Fitting(rest, space - |r|));
        } else {
          NothingFits(rest, s - SZ);
          assert [] + Written(rest, s - SZ).0 == Written(rest, s - SZ).0;
        }
      }
    }
  }

  // ---- probe, then fetch ------------------------------------------------------------

  lemma {:induction false} EverythingFits(rs: seq<seq<byte>>, n: int)
    requires Total(rs) <= n
    ensures Fitting(rs, n) == rs
    decreases rs
  {
    if rs != [] {
      EverythingFits(rs[1..], n - |rs[0]|);
    }
  }

  lemma {:induction false} TotalIsLength(rs: seq<seq<byte>>)
    ensures |Flatten(rs)| == Total(rs)
  {
    if rs != [] {
      TotalIsLength(rs[1..]);
    }
  }

  lemma TotalStep(order: ByteOrder, old43: bool, items: seq<Item>, addr: seq<byte>)
    requires |addr| == SASIZE && items != []
    ensures Total(Records(order, old43, items, addr)) ==
            (if Eligible(old43, items[0]) then |RecordOf(order, old43, items[0], addr)| else 0) +
            Total(Records(order, old43, items[1..], NextAddr(order, old43, items[0], addr)))
  {
    hide NextAddr, RecordOf;
    var rest := Records(order, old43, items[1..], NextAddr(order, old43, items[0], addr));
    assert ([RecordOf(order, old43, items[0], addr)] + rest)[1..] == rest;
    assert [] + rest == rest;
  }

  /** What the stack happened to hold changes the bytes of records, not their sizes. */
  lemma {:induction false} TotalAnyStack(order: ByteOrder, old43: bool, items: seq<Item>, a: seq<byte>, b: seq<byte>)
    requires |a| == |b| == SASIZE
    ensures Total(Records(order, old43, items, a)) == Total(Records(order, old43, items, b))
    decreases items
  {
    hide NextAddr, Store, Total;
    if items != [] {
      var it := items[0];
      TotalStep(order, old43, items, a);
      TotalStep(order, old43, items, b);
      TotalAnyStack(order, old43, items[1..], NextAddr(order, old43, it, a), NextAddr(order, old43, it, b));
    }
  }

  /** A null probe reports a length; fetching with that length gives every record
      and exactly that many bytes, though the two calls find different leftovers
      `a` and `b` on the stack. */
  lemma ProbeThenFetch(order: ByteOrder, old43: bool, ifs: seq<Interface>, a: seq<byte>, b: seq<byte>, len: int32)
    requires |a| == |b| == SASIZE
    requires Total(Records(order, old43, Items(ifs), a)) < 0x8000_0000
    ensures var probe, rs := Records(order, old43, Items(ifs), a), Records(order, old43, Items(ifs), b);
      var n := Reported(len, true, Written(probe, 0).1);
      && n == Total(rs)
      && Written(rs, n).0 == Flatten(rs) && |Flatten(rs)| == n
      && Reported(n, false, Written(rs, n).1) == n
  {
    hide Int32, Records, Written;
    var probe, rs := Records(order, old43, Items(ifs), a), Records(order, old43, Items(ifs), b);
    TotalAnyStack(order, old43, Items(ifs), a, b);
    ReportsTotal(probe, len, true);
    var n := Total(rs);
    ReportsTotal(rs, n, false);
    EverythingFits(rs, n);
    WritesLongestPrefixIff(rs, n);
    TotalIsLength(rs);
  }
}
