/** NS_PUT16/32 and NS_GET16/32 of <arpa/nameser.h>: integers in network byte
    order (section 2.3.2 of RFC 1035), through a cursor that advances. */
module NameSer {
  import opened Bytes

  /** A packet and a cursor into it. */
  class Packet {
    const buf: array<byte>
    var cp: nat

    constructor (buf: array<byte>)
      ensures this.buf == buf && cp == 0
    {
      this.buf, cp := buf, 0;
    }

    method Put16(s: nat)
      requires cp + 2 <= buf.Length
      modifies this`cp, buf
      ensures cp == old(cp) + 2
      ensures buf[..] == Splice(old(buf[..]), old(cp), Store(BigEndian, 2, s))
    {
      var v := s % 0x1_0000_0000;
      Shifts(s);
      Store2(s);
      buf[cp] := v / 0x100 % 0x100;
      buf[cp + 1] := v % 0x100;
      cp := cp + 2;
    }

    method Put32(l: nat)
      requires cp + 4 <= buf.Length
      modifies this`cp, buf
      ensures cp == old(cp) + 4
      ensures buf[..] == Splice(old(buf[..]), old(cp), Store(BigEndian, 4, l))
    {
      var v := l % 0x1_0000_0000;
      Shifts(l);
      Store4(l);
      buf[cp] := v / 0x100_0000 % 0x100;
      buf[cp + 1] := v / 0x1_0000 % 0x100;
      buf[cp + 2] := v / 0x100 % 0x100;
      buf[cp + 3] := v % 0x100;
      cp := cp + 4;
    }

    method Get16() returns (s: nat)
      requires cp + 2 <= buf.Length
      modifies this`cp
      ensures cp == old(cp) + 2
      ensures s == Load(BigEndian, buf[old(cp)..cp])
    {
      Load2(buf[cp..cp + 2]);
      s := (buf[cp] as int) * 0x100 + buf[cp + 1];
      cp := cp + 2;
    }

    method Get32() returns (l: nat)
      requires cp + 4 <= buf.Length
      modifies this`cp
      ensures cp == old(cp) + 4
      ensures l == Load(BigEndian, buf[old(cp)..cp])
    {
      Load4(buf[cp..cp + 4]);
      l := (buf[cp] as int) * 0x100_0000 + (buf[cp + 1] as int) * 0x1_0000 + (buf[cp + 2] as int) * 0x100 + buf[cp + 3];
      cp := cp + 4;
    }
  }

  /** Shifting right a byte at a time, on a value cut to 32 bits or not. */
  lemma Shifts(v: nat)
    ensures v / 0x100 / 0x100 == v / 0x1_0000
    ensures v / 0x1_0000 / 0x100 == v / 0x100_0000
    ensures v % 0x1_0000_0000 % 0x100 == v % 0x100
    ensures v % 0x1_0000_0000 / 0x100 % 0x100 == v / 0x100 % 0x100
    ensures v % 0x1_0000_0000 / 0x1_0000 % 0x100 == v / 0x1_0000 % 0x100
    ensures v % 0x1_0000_0000 / 0x100_0000 % 0x100 == v / 0x100_0000 % 0x100
  {
    var a, b, c := v / 0x100, v / 0x1_0000, v / 0x100_0000;
    var h := c / 0x100;
    var b0, b1, b2, b3 := v % 0x100, a % 0x100, b % 0x100, c % 0x100;
    assert v == b0 + 0x100 * a && a == b1 + 0x100 * b && b == b2 + 0x100 * c && c == b3 + 0x100 * h;
    Digits(b0, b1, b2, b3, h);
  }

  lemma Digits(b0: nat, b1: nat, b2: nat, b3: nat, h: nat)
    requires b0 < 0x100 && b1 < 0x100 && b2 < 0x100 && b3 < 0x100
    ensures var w := b0 + 0x100 * b1 + 0x1_0000 * b2 + 0x100_0000 * b3;
      && (w + 0x1_0000_0000 * h) % 0x1_0000_0000 == w
      && w % 0x100 == b0 && w / 0x100 % 0x100 == b1 && w / 0x1_0000 % 0x100 == b2 && w / 0x100_0000 % 0x100 == b3
  {
    var w1, w2 := b1 + 0x100 * b2 + 0x1_0000 * b3, b2 + 0x100 * b3;
    var w := b0 + 0x100 * w1;
    Quotient(w + 0x1_0000_0000 * h, 0x1_0000_0000, h, w);
    Quotient(w, 0x100, w1, b0);
    Quotient(w1, 0x100, w2, b1);
    Quotient(w2, 0x100, b3, b2);
    Quotient(w, 0x1_0000, w2, b0 + 0x100 * b1);
    Quotient(w, 0x100_0000, b3, b0 + 0x100 * b1 + 0x1_0000 * b2);
  }

  lemma Store2(v: nat)
    ensures Store(BigEndian, 2, v) == [v / 0x100 % 0x100, v % 0x100]
  {
    var a := v / 0x100;
    assert Store(BigEndian, 0, a / 256) == [];
    assert Store(BigEndian, 1, a) == [a % 256];
  }

  lemma Store4(v: nat)
    ensures Store(BigEndian, 4, v) == [v / 0x100_0000 % 0x100, v / 0x1_0000 % 0x100, v / 0x100 % 0x100, v % 0x100]
  {
    hide Store;
    Shifts(v);
    Store2(v / 0x1_0000);
    StoreStep(3, v / 0x100);
    StoreStep(4, v);
  }

  lemma StoreStep(n: nat, v: nat)
    requires n > 0
    ensures Store(BigEndian, n, v) == Store(BigEndian, n - 1, v / 0x100) + [v % 0x100]
  {
  }

  lemma Load2(s: seq<byte>)
    requires |s| == 2
    ensures Load(BigEndian, s) == (s[0] as int) * 0x100 + s[1]
  {
    var a := s[..1];
    assert a[..0] == [] && Load(BigEndian, a) == s[0];
  }

  lemma Load4(s: seq<byte>)
    requires |s| == 4
    ensures Load(BigEndian, s) == (s[0] as int) * 0x100_0000 + (s[1] as int) * 0x1_0000 + (s[2] as int) * 0x100 + s[3]
  {
    var c, b := s[..3], s[..2];
    assert c[..2] == b;
    Load2(b);
    assert Load(BigEndian, c) == Load(BigEndian, b) * 0x100 + s[2];
  }

  // ---- mixed sequences -----------------------------------------------------------

  /** A value put at one of the two widths. */
  datatype Item = I16(v: nat) | I32(v: nat) {
    function Width(): nat {
      if I16? then 2 else 4
    }

    /** What a field of this width can hold. */
    function Held(): nat {
      if I16? then v % 0x1_0000 else v % 0x1_0000_0000
    }
  }

  /** The cursor after these puts, or the same gets. */
  function End(cp: nat, items: seq<Item>): (e: nat)
    ensures cp <= e
    decreases items
  {
    if items == [] then cp else End(cp + items[0].Width(), items[1..])
  }

  function PutAll(buf: seq<byte>, cp: nat, items: seq<Item>): (r: seq<byte>)
    requires End(cp, items) <= |buf|
    ensures |r| == |buf|
    decreases items
  {
    if items == [] then buf
    else
      var w := items[0].Width();
      PutAll(Splice(buf, cp, Store(BigEndian, w, items[0].v)), cp + w, items[1..])
  }

  /** The values the same sequence of gets yields. */
  function GetAll(buf: seq<byte>, cp: nat, items: seq<Item>): seq<nat>
    requires End(cp, items) <= |buf|
    decreases items
  {
    if items == [] then []
    else
      var w := items[0].Width();
      [Load(BigEndian, buf[cp..cp + w])] + GetAll(buf, cp + w, items[1..])
  }

  function AllHeld(items: seq<Item>): seq<nat> {
    if items == [] then [] else [items[0].Held()] + AllHeld(items[1..])
  }

  /** Bytes outside the written range are untouched. */
  lemma {:induction false} PutAllFrame(buf: seq<byte>, cp: nat, items: seq<Item>)
    requires End(cp, items) <= |buf|
    ensures var r := PutAll(buf, cp, items); r[..cp] == buf[..cp] && r[End(cp, items)..] == buf[End(cp, items)..]
    decreases items
  {
    hide Store;
    if items != [] {
      var w := items[0].Width();
      var s := Splice(buf, cp, Store(BigEndian, w, items[0].v));
      PutAllFrame(s, cp + w, items[1..]);
      var r := PutAll(buf, cp, items);
      assert r[..cp] == r[..cp + w][..cp] && s[..cp + w][..cp] == buf[..cp];
      var e := End(cp, items);
      assert s[cp + w..] == buf[cp + w..];
      assert s[e..] == s[cp + w..][e - cp - w..] && buf[e..] == buf[cp + w..][e - cp - w..];
    }
  }

  /** For any mixed sequence of 16- and 32-bit puts, the same sequence of gets
      recovers every value, cut to its width. */
  lemma {:induction false} GetAllPutAll(buf: seq<byte>, cp: nat, items: seq<Item>)
    requires End(cp, items) <= |buf|
    ensures GetAll(PutAll(buf, cp, items), cp, items) == AllHeld(items)
    decreases items
  {
    hide Store, Load;
    if items != [] {
      var w := items[0].Width();
      var field := Store(BigEndian, w, items[0].v);
      var s := Splice(buf, cp, field);
      var r := PutAll(buf, cp, items);
      PutAllFrame(s, cp + w, items[1..]);
      GetAllPutAll(s, cp + w, items[1..]);
      assert r[cp..cp + w] == r[..cp + w][cp..] == s[..cp + w][cp..] == field;
      LoadStore(BigEndian, w, items[0].v);
      WidthPower(items[0]);
    }
  }

  lemma WidthPower(it: Item)
    ensures it.v % Pow256(it.Width()) == it.Held()
  {
    assert Pow256(1) == 256 && Pow256(2) == 0x1_0000 && Pow256(3) == 0x100_0000 && Pow256(4) == 0x1_0000_0000;
  }
}
