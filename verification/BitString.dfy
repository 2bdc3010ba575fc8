/** The bit strings of <bitstring.h>, and the NXT type bitmaps of
    <arpa/nameser.h>, which number the bits of each byte from the other end. */
module BitString {

  /** _bit_mask: 1 << (bit & 7). */
  function Mask(k: nat): (m: bv8)
    requires k < 8
  {
    (1 as bv8) << k
  }

  /** 0x80 >> (n % NS_NXT_BITS). */
  function NxtMask(k: nat): (m: bv8)
    requires k < 8
  {
    (0x80 as bv8) >> k
  }

  predicate InByte(b: bv8, k: nat)
    requires k < 8
  {
    b & Mask(k) != 0
  }

  function WithBit(b: bv8, k: nat): bv8
    requires k < 8
  {
    b | Mask(k)
  }

  function WithoutBit(b: bv8, k: nat): bv8
    requires k < 8
  {
    b & !Mask(k)
  }

  /** bit_test */
  predicate Test(s: seq<bv8>, bit: nat)
    requires bit < 8 * |s|
  {
    InByte(s[bit / 8], bit % 8)
  }

  function SetBit(s: seq<bv8>, bit: nat): (r: seq<bv8>)
    requires bit < 8 * |s|
    ensures |r| == |s|
  {
    s[bit / 8 := WithBit(s[bit / 8], bit % 8)]
  }

  function ClearBit(s: seq<bv8>, bit: nat): (r: seq<bv8>)
    requires bit < 8 * |s|
    ensures |r| == |s|
  {
    s[bit / 8 := WithoutBit(s[bit / 8], bit % 8)]
  }

  lemma Masks(k: nat)
    requires k < 8
    ensures Mask(k) == (if k == 0 then 1 else if k == 1 then 2 else if k == 2 then 4 else if k == 3 then 8
                        else if k == 4 then 16 else if k == 5 then 32 else if k == 6 then 64 else 128)
    ensures NxtMask(k) == (if k == 0 then 128 else if k == 1 then 64 else if k == 2 then 32 else if k == 3 then 16
                           else if k == 4 then 8 else if k == 5 then 4 else if k == 6 then 2 else 1)
  {
  }

  lemma ByteSet(b: bv8, i: nat, j: nat)
    requires i < 8 && j < 8
    ensures InByte(WithBit(b, i), j) <==> i == j || InByte(b, j)
  {
    hide Mask;
    Masks(i);
    Masks(j);
  }

  lemma ByteClear(b: bv8, i: nat, j: nat)
    requires i < 8 && j < 8
    ensures InByte(WithoutBit(b, i), j) <==> i != j && InByte(b, j)
  {
    hide Mask;
    Masks(i);
    Masks(j);
  }

  /** Setting or clearing one bit changes that bit only. */
  lemma OneBit(s: seq<bv8>, bit: nat, j: nat)
    requires bit < 8 * |s| && j < 8 * |s|
    ensures Test(SetBit(s, bit), j) <==> j == bit || Test(s, j)
    ensures Test(ClearBit(s, bit), j) <==> j != bit && Test(s, j)
  {
    hide InByte, WithBit, WithoutBit;
    assert bit == 8 * (bit / 8) + bit % 8 && j == 8 * (j / 8) + j % 8;
    ByteSet(s[bit / 8], bit % 8, j % 8);
    ByteClear(s[bit / 8], bit % 8, j % 8);
  }

  /** bit_nset: exactly the bits start..stop are added. */
  method NSet(name: array<bv8>, start: nat, stop: int)
    requires start <= stop ==> stop < 8 * name.Length
    modifies name
    ensures forall j: nat :: j < 8 * name.Length ==>
      (Test(name[..], j) <==> start <= j <= stop || Test(old(name[..]), j))
  {
    hide Mask, Test;
    var i := start;
    while i <= stop
      invariant start <= i && (i <= stop + 1 || i == start)
      invariant forall j: nat :: j < 8 * name.Length ==>
        (Test(name[..], j) <==> start <= j < i || Test(old(name[..]), j))
      decreases stop - i
    {
      ghost var was := name[..];
      name[i / 8] := name[i / 8] | Mask(i % 8);
      assert name[..] == SetBit(was, i);
      forall j: nat | j < 8 * name.Length ensures Test(name[..], j) <==> j == i || Test(was, j) {
        OneBit(was, i, j);
      }
      i := i + 1;
    }
  }

  /** bit_nclear: exactly the bits start..stop are removed. */
  method NClear(name: array<bv8>, start: nat, stop: int)
    requires start <= stop ==> stop < 8 * name.Length
    modifies name
    ensures forall j: nat :: j < 8 * name.Length ==>
      (Test(name[..], j) <==> !(start <= j <= stop) && Test(old(name[..]), j))
  {
    hide Mask, Test;
    var i := start;
    while i <= stop
      invariant start <= i && (i <= stop + 1 || i == start)
      invariant forall j: nat :: j < 8 * name.Length ==>
        (Test(name[..], j) <==> !(start <= j < i) && Test(old(name[..]), j))
      decreases stop - i
    {
      ghost var was := name[..];
      name[i / 8] := name[i / 8] & !Mask(i % 8);
      assert name[..] == ClearBit(was, i);
      forall j: nat | j < 8 * name.Length ensures Test(name[..], j) <==> j != i && Test(was, j) {
        OneBit(was, i, j);
      }
      i := i + 1;
    }
  }

  /** bit_ffs: the least set bit below nbits, or -1. */
  method Ffs(name: array<bv8>, nbits: int) returns (value: int)
    requires nbits <= 8 * name.Length
    ensures value == -1 || (0 <= value < nbits && Test(name[..], value))
    ensures forall j: nat :: j < (if value == -1 then nbits else value) ==> !Test(name[..], j)
  {
    var bit := 0;
    while bit < nbits
      invariant 0 <= bit && (bit <= nbits || bit == 0)
      invariant forall j: nat :: j < bit ==> !Test(name[..], j)
    {
      if name[bit / 8] & Mask(bit % 8) != 0 { return bit; }
      assert !Test(name[..], bit);
      bit := bit + 1;
    }
    value := -1;
  }

  /** The least clear bit from `from` on and below nbits, or -1. */
  function FirstClear(s: seq<bv8>, from: nat, nbits: int): (v: int)
    requires nbits <= 8 * |s|
    ensures v == -1 || (from <= v < nbits && !Test(s, v))
    ensures forall j: nat :: from <= j < (if v == -1 then nbits else v) ==> Test(s, j)
    decreases nbits - from
  {
    if from >= nbits then -1 else if !Test(s, from) then from else FirstClear(s, from + 1, nbits)
  }

  /** bit_ffc: the least clear bit below nbits, or -1. */
  method Ffc(name: array<bv8>, nbits: int) returns (value: int)
    requires nbits <= 8 * name.Length
    ensures value == FirstClear(name[..], 0, nbits)
  {
    var bit := 0;
    while bit < nbits
      invariant 0 <= bit && (bit <= nbits || bit == 0)
      invariant FirstClear(name[..], 0, nbits) == FirstClear(name[..], bit, nbits)
    {
      if name[bit / 8] & Mask(bit % 8) == 0 { return bit; }
      bit := bit + 1;
    }
    value := -1;
  }

  /** Handing out numbers: ffc and set, `k` times over. */
  function Claims(s: seq<bv8>, nbits: int, k: nat): (vs: seq<int>)
    requires nbits <= 8 * |s|
    ensures |vs| == k
    decreases k
  {
    if k == 0 then []
    else
      var v := FirstClear(s, 0, nbits);
      [v] + Claims(if v == -1 then s else SetBit(s, v), nbits, k - 1)
  }

  /** Every number handed out was free. */
  ghost predicate Free(s: seq<bv8>, nbits: int, vs: seq<int>)
    requires nbits <= 8 * |s|
  {
    forall i :: 0 <= i < |vs| ==> vs[i] == -1 || (0 <= vs[i] < nbits && !Test(s, vs[i]))
  }

  /** All are different: they only grow, and after a -1 there are no more. */
  ghost predicate Growing(vs: seq<int>) {
    forall i, j :: 0 <= i < j < |vs| && vs[j] != -1 ==> -1 < vs[i] < vs[j]
  }

  /** A -1 comes only when every free number has been handed out. */
  ghost predicate Complete(s: seq<bv8>, nbits: int, vs: seq<int>)
    requires nbits <= 8 * |s|
  {
    forall i, b: nat {:trigger vs[i], Test(s, b)} ::
      0 <= i < |vs| && vs[i] == -1 && b < nbits && !Test(s, b) ==> b in vs[..i]
  }

  lemma {:induction false} ClaimsAreDistinct(s: seq<bv8>, nbits: int, k: nat)
    requires nbits <= 8 * |s|
    ensures var vs := Claims(s, nbits, k); Free(s, nbits, vs) && Growing(vs) && Complete(s, nbits, vs)
    decreases k
  {
    hide Mask, Test, Free, Growing, Complete;
    if k == 0 {
      NoClaims(s, nbits);
    } else {
      var v := FirstClear(s, 0, nbits);
      var t := if v == -1 then s else SetBit(s, v);
      var rest := Claims(t, nbits, k - 1);
      ClaimsAreDistinct(t, nbits, k - 1);
      if v != -1 {
        forall b: nat | b < nbits ensures Test(t, b) <==> b == v || Test(s, b) {
          OneBit(s, v, b);
        }
      }
      FreeCons(s, nbits, v, t, rest);
      GrowingCons(s, nbits, v, t, rest);
      CompleteCons(s, nbits, v, t, rest);
    }
  }

  lemma NoClaims(s: seq<bv8>, nbits: int)
    requires nbits <= 8 * |s|
    ensures Free(s, nbits, []) && Growing([]) && Complete(s, nbits, [])
  {
  }

  ghost predicate Taken(s: seq<bv8>, nbits: int, v: int, t: seq<bv8>)
    requires nbits <= 8 * |s| && |t| == |s|
  {
    && v == FirstClear(s, 0, nbits)
    && (v == -1 ==> t == s)
    && (v != -1 ==> forall b: nat :: b < nbits ==> (Test(t, b) <==> b == v || Test(s, b)))
  }

  lemma FreeCons(s: seq<bv8>, nbits: int, v: int, t: seq<bv8>, rest: seq<int>)
    requires nbits <= 8 * |s| && |t| == |s| && Taken(s, nbits, v, t) && Free(t, nbits, rest)
    ensures Free(s, nbits, [v] + rest)
  {
    hide Test, FirstClear;
    forall i | 0 < i < |[v] + rest| && ([v] + rest)[i] != -1
      ensures 0 <= ([v] + rest)[i] < nbits && !Test(s, ([v] + rest)[i])
    {
      assert !Test(t, rest[i - 1]);
    }
  }

  lemma GrowingCons(s: seq<bv8>, nbits: int, v: int, t: seq<bv8>, rest: seq<int>)
    requires nbits <= 8 * |s| && |t| == |s| && Taken(s, nbits, v, t) && Free(t, nbits, rest) && Growing(rest)
    ensures Growing([v] + rest)
  {
    hide Test, FirstClear;
    var vs := [v] + rest;
    forall i, j | 0 <= i < j < |vs| && vs[j] != -1 ensures -1 < vs[i] < vs[j] {
      assert vs[j] == rest[j - 1] && !Test(t, rest[j - 1]);
      if i > 0 { assert vs[i] == rest[i - 1]; }
    }
  }

  lemma CompleteCons(s: seq<bv8>, nbits: int, v: int, t: seq<bv8>, rest: seq<int>)
    requires nbits <= 8 * |s| && |t| == |s| && Taken(s, nbits, v, t) && Complete(t, nbits, rest)
    ensures Complete(s, nbits, [v] + rest)
  {
    hide Test, FirstClear;
    var vs := [v] + rest;
    forall i, b: nat | 0 <= i < |vs| && vs[i] == -1 && b < nbits && !Test(s, b) ensures b in vs[..i] {
      if i > 0 && b == v {
        assert vs[..i][0] == v;
      } else if i > 0 {
        assert rest[i - 1] == -1 && !Test(t, b);
        assert b in rest[..i - 1];
        assert vs[..i] == [v] + rest[..i - 1];
      }
    }
  }

  /** bitstr_size: bytes for `nbits` bits. */
  function BitstrSize(nbits: nat): nat {
    (nbits + 7) / 8
  }

  /** What the routines ask of an array is what bitstr_size promises: that many
      bytes hold the bits, and fewer do not. */
  lemma HoldsIffBitstrSize(nbits: nat, bytes: nat)
    ensures nbits <= 8 * bytes <==> BitstrSize(nbits) <= bytes
  {
  }

  // ---- NXT bitmaps (RFC 2535, section 5.2) ------------------------------------------

  predicate NxtTest(p: seq<bv8>, n: nat)
    requires n < 8 * |p|
  {
    p[n / 8] & NxtMask(n % 8) != 0
  }

  method NxtSet(p: array<bv8>, n: nat)
    requires n < 8 * p.Length
    modifies p
    ensures Reversed(p[..]) == SetBit(Reversed(old(p[..])), n)
  {
    ReversedByteSet(p[n / 8], n % 8);
    p[n / 8] := p[n / 8] | NxtMask(n % 8);
  }

  method NxtClear(p: array<bv8>, n: nat)
    requires n < 8 * p.Length
    modifies p
    ensures Reversed(p[..]) == ClearBit(Reversed(old(p[..])), n)
  {
    ReversedByteClear(p[n / 8], n % 8);
    p[n / 8] := p[n / 8] & !NxtMask(n % 8);
  }

  /** A byte with its bits in the opposite order. */
  function ReversedByte(b: bv8): bv8 {
    ((b & 1) << 7) | ((b & 2) << 5) | ((b & 4) << 3) | ((b & 8) << 1) |
    ((b & 16) >> 1) | ((b & 32) >> 3) | ((b & 64) >> 5) | ((b & 128) >> 7)
  }

  function Reversed(s: seq<bv8>): (r: seq<bv8>)
    ensures |r| == |s| && forall i :: 0 <= i < |s| ==> r[i] == ReversedByte(s[i])
  {
    seq(|s|, i requires 0 <= i < |s| => ReversedByte(s[i]))
  }

  lemma ReversedByteSet(b: bv8, k: nat)
    requires k < 8
    ensures ReversedByte(b | NxtMask(k)) == WithBit(ReversedByte(b), k)
  {
    hide Mask, NxtMask;
    Masks(k);
  }

  lemma ReversedByteClear(b: bv8, k: nat)
    requires k < 8
    ensures ReversedByte(b & !NxtMask(k)) == WithoutBit(ReversedByte(b), k)
  {
    hide Mask, NxtMask;
    Masks(k);
  }

  lemma ReversedByteTest(b: bv8, k: nat)
    requires k < 8
    ensures b & NxtMask(k) != 0 <==> InByte(ReversedByte(b), k)
  {
    hide Mask, NxtMask;
    Masks(k);
  }

  /** An NXT bitmap is the bit string with the bits of each byte reversed, and
      reversing twice gives it back. */
  lemma NxtIsReversed(p: seq<bv8>, n: nat)
    requires n < 8 * |p|
    ensures NxtTest(p, n) <==> Test(Reversed(p), n)
    ensures Reversed(Reversed(p)) == p
  {
    ReversedByteTest(p[n / 8], n % 8);
    forall i | 0 <= i < |p| ensures ReversedByte(ReversedByte(p[i])) == p[i] {
    }
  }
}
