/** The segment arithmetic of exec_aout_prep_oldnmagic and
    exec_aout_prep_oldomagic: what it means over unbounded sizes, and exactly
    when the arithmetic of a u_long gives that. */
module AoutExec {
  import opened Bytes
  import opened Kernel

  type pos = n: int | n > 0 witness 1

  datatype Kind = ReadVn | MapZero

  /** NEW_VMCMD(kind, size, addr, offset). */
  datatype Vmcmd = Vmcmd(kind: Kind, size: nat, addr: nat, offset: nat)

  /** struct exec: text, data and bss sizes and the entry point, eight u_longs. */
  datatype Header = Header(word: Word, text: nat, data: nat, bss: nat, entry: nat)

  function ExecSize(w: Word): nat {
    if w.Ilp32? then 32 else 64
  }

  function RoundUp(x: nat, p: pos): (r: nat)
    ensures x <= r < x + p && r % p == 0
  {
    var r := (x + p - 1) / p * p;
    RoundUpBounds(x, p);
    r
  }

  lemma RoundUpBounds(x: nat, p: pos)
    ensures var r := (x + p - 1) / p * p; x <= r < x + p && r % p == 0
  {
    var q := (x + p - 1) / p;
    assert x + p - 1 == p * q + (x + p - 1) % p;
    assert q * p == p * q;
    MultipleMod(q, p);
  }

  lemma MultipleMod(q: int, p: pos)
    ensures q * p % p == 0
  {
    DivUnique(q * p, p, q, 0);
  }

  lemma DivUnique(x: int, p: pos, q: int, r: int)
    requires 0 <= r < p && x == q * p + r
    ensures x / p == q && x % p == r
  {
    var a, b := x / p, x % p;
    assert x == p * a + b;
    assert p * (a - q) == p * a - q * p;
    SmallMultiple(p, a - q, r - b);
  }

  lemma ProductSign(x: int, p: pos)
    ensures x >= 0 ==> x * p >= 0
  {
  }

  lemma MulLess(k: int, l: int, p: pos)
    requires k * p < l * p
    ensures k < l
  {
    ProductSign(k - l, p);
    assert (k - l) * p == k * p - l * p;
  }

  /** Pages of size `p` a size takes: btoc(). */
  function Pages(x: nat, p: pos): nat {
    (x + p - 1) / p
  }

  lemma PagesOfRoundUp(x: nat, p: pos)
    ensures RoundUp(x, p) == Pages(x, p) * p
  {
  }

  /** Splitting at a page boundary splits the page count. */
  lemma PagesSplit(a: nat, x: nat, p: pos)
    ensures Pages(a * p + x, p) == a + Pages(x, p)
  {
    var y := x + p - 1;
    assert y == p * (y / p) + y % p && p * (y / p) == y / p * p;
    assert a * p + y == (a + y / p) * p + y % p;
    DivUnique(a * p + y, p, a + y / p, y % p);
  }

  /** What lies beyond the page boundary above `x` takes the remaining pages. */
  lemma PagesBeyond(x: nat, n: nat, p: pos)
    requires x <= n
    ensures Pages(n, p) == Pages(x, p) + if n > RoundUp(x, p) then Pages(n - RoundUp(x, p), p) else 0
  {
    hide Pages, RoundUp;
    var r, k := RoundUp(x, p), Pages(x, p);
    PagesOfRoundUp(x, p);
    if n > r {
      PagesSplit(k, n - r, p);
      assert k * p + (n - r) == n;
    } else {
      PagesOfRoundUp(n, p);
      SameMultiple(Pages(n, p), k, p);
    }
  }

  lemma SameMultiple(k: int, l: int, p: pos)
    requires k * p - l * p < p && l * p - k * p < p
    ensures k == l
  {
    assert p * (k - l) == k * p - l * p;
    SmallMultiple(p, k - l, k * p - l * p);
  }

  // ---- what the commands map ----------------------------------------------------------

  /** Pages mapped by the commands. */
  function Mapped(cmds: seq<Vmcmd>, p: pos): nat {
    if cmds == [] then 0 else Pages(cmds[0].size, p) + Mapped(cmds[1..], p)
  }

  /** Address `a` lies in the pages `c` maps. */
  predicate Covers(c: Vmcmd, p: pos, a: nat) {
    c.addr <= a < c.addr + RoundUp(c.size, p)
  }

  /** What a process finds at an address. */
  datatype Content = FromFile(offset: nat) | Zero | Unmapped

  function Image(cmds: seq<Vmcmd>, p: pos, a: nat): Content {
    if cmds == [] then Unmapped
    else if Covers(cmds[0], p, a) then
      if cmds[0].kind.ReadVn? && a < cmds[0].addr + cmds[0].size then FromFile(cmds[0].offset + a - cmds[0].addr)
      else Zero
    else Image(cmds[1..], p, a)
  }

  /** Every command starts at a page boundary and no page is mapped twice. */
  ghost predicate Disjoint(cmds: seq<Vmcmd>, p: pos) {
    && (forall i :: 0 <= i < |cmds| ==> cmds[i].addr % p == 0)
    && forall i, j, a: nat :: 0 <= i < j < |cmds| ==> !(Covers(cmds[i], p, a) && Covers(cmds[j], p, a))
  }

  /** The program is loaded: text at 0, data at `daddr`, bss after it, zeroed. */
  ghost predicate Loaded(h: Header, cmds: seq<Vmcmd>, daddr: nat, p: pos) {
    var size := if h.word.Ilp32? then 32 else 64;   // of struct exec
    && (forall a: nat :: a < h.text ==> Image(cmds, p, a) == FromFile(size + a))
    && (forall a: nat :: daddr <= a < daddr + h.data ==> Image(cmds, p, a) == FromFile(size + h.text + a - daddr))
    && (forall a: nat :: daddr + h.data <= a < daddr + h.data + h.bss ==> Image(cmds, p, a) == Zero)
  }

  /** The bss command: what of the bss lies beyond the last page of data. */
  function BssCmds(h: Header, daddr: nat, p: pos): seq<Vmcmd> {
    var baddr := RoundUp(daddr + h.data, p);
    var bsize := daddr + h.data + h.bss - baddr;
    if bsize > 0 then [Vmcmd(MapZero, bsize, baddr, 0)] else []
  }

  function OmagicCmds(h: Header, p: pos): seq<Vmcmd> {
    [Vmcmd(ReadVn, h.text + h.data, 0, ExecSize(h.word))] + BssCmds(h, h.text, p)
  }

  /** ep_dsize less what the last page of text already covers. */
  function OmagicDsize(h: Header, p: pos): nat {
    var left := h.data + h.bss + h.text - RoundUp(h.text, p);
    if left > 0 then left else 0
  }

  function NmagicCmds(h: Header, daddr: nat, p: pos): seq<Vmcmd> {
    [Vmcmd(ReadVn, h.text, 0, ExecSize(h.word)), Vmcmd(ReadVn, h.data, daddr, h.text + ExecSize(h.word))] + BssCmds(h, daddr, p)
  }

  /** Pages of the bss command. */
  lemma BssPages(h: Header, daddr: nat, p: pos)
    ensures Pages(daddr + h.data, p) + Mapped(BssCmds(h, daddr, p), p) == Pages(daddr + h.data + h.bss, p)
  {
    PagesBeyond(daddr + h.data, daddr + h.data + h.bss, p);
  }

  /** Old OMAGIC: the pages mapped are the pages of ep_tsize and of the corrected
      ep_dsize, for every header. */
  lemma OmagicPages(h: Header, p: pos)
    ensures Mapped(OmagicCmds(h, p), p) == Pages(h.text, p) + Pages(OmagicDsize(h, p), p)
  {
    var cmds := OmagicCmds(h, p);
    assert cmds[1..] == BssCmds(h, h.text, p);
    BssPages(h, h.text, p);
    PagesBeyond(h.text, h.text + h.data + h.bss, p);
    PagesOfZero(p);
  }

  lemma PagesOfZero(p: pos)
    ensures Pages(0, p) == 0
  {
    DivUnique(p - 1, p, 0, p - 1);
  }

  lemma RoundUpAligned(x: nat, a: nat, p: pos)
    requires a % p == 0
    ensures RoundUp(a + x, p) == a + RoundUp(x, p)
  {
    var k := a / p;
    assert a == k * p;
    PagesSplit(k, x, p);
    assert (k + Pages(x, p)) * p == k * p + Pages(x, p) * p;
  }

  lemma OmagicLoads(h: Header, p: pos)
    ensures Loaded(h, OmagicCmds(h, p), h.text, p) && Disjoint(OmagicCmds(h, p), p)
  {
    hide RoundUp;
    var cmds, bss := OmagicCmds(h, p), BssCmds(h, h.text, p);
    var r := RoundUp(h.text + h.data, p);
    assert cmds[0].addr == 0 && cmds[1..] == bss;
    forall a: nat ensures Image(cmds, p, a) ==
      if a < r then if a < h.text + h.data then FromFile(ExecSize(h.word) + a) else Zero else Image(bss, p, a)
    {
    }
    ZeroMod(p);
  }

  /** Old NMAGIC loads its program in disjoint pages when data starts at a page
      boundary. */
  lemma NmagicLoads(h: Header, daddr: nat, p: pos)
    requires daddr % p == 0 && h.text <= daddr
    ensures Loaded(h, NmagicCmds(h, daddr, p), daddr, p) && Disjoint(NmagicCmds(h, daddr, p), p)
  {
    hide RoundUp, Pages;
    var cmds := NmagicCmds(h, daddr, p);
    RoundUpAligned(h.data, daddr, p);
    RoundUpLeast(h.text, daddr, p);
    var tail, bss := cmds[1..], BssCmds(h, daddr, p);
    assert tail[0] == cmds[1] && tail[1..] == bss;
    forall a: nat ensures Image(cmds, p, a) ==
      if Covers(cmds[0], p, a) then if a < h.text then FromFile(ExecSize(h.word) + a) else Zero
      else if Covers(cmds[1], p, a) then
        if a < daddr + h.data then FromFile(ExecSize(h.word) + h.text + a - daddr) else Zero
      else Image(bss, p, a)
    {
      assert Image(tail, p, a) == if Covers(cmds[1], p, a) then
        (if a < daddr + h.data then FromFile(ExecSize(h.word) + h.text + a - daddr) else Zero) else Image(bss, p, a);
    }
    ZeroMod(p);
  }

  lemma ZeroMod(p: pos)
    ensures 0 % p == 0
  {
  }

  lemma RoundUpLeast(x: nat, m: nat, p: pos)
    requires m % p == 0 && x <= m
    ensures RoundUp(x, p) <= m
  {
    hide Pages;
    var r, k, l := RoundUp(x, p), Pages(x, p), m / p;
    PagesOfRoundUp(x, p);
    assert m == l * p;
    assert (k - 1) * p == r - p < m;
    MulLess(k - 1, l, p);
    assert k == l || k < l;
    if k < l { ProductSign(l - k, p); assert (l - k) * p == m - r; }
  }

  /** NMAGIC needs no correction: with data at a page boundary the pages mapped
      are the pages of ep_tsize and ep_dsize. */
  lemma NmagicPages(h: Header, daddr: nat, p: pos)
    requires daddr % p == 0
    ensures Mapped(NmagicCmds(h, daddr, p), p) == Pages(h.text, p) + Pages(h.data + h.bss, p)
  {
    var cmds := NmagicCmds(h, daddr, p);
    assert cmds[1..][0] == cmds[1] && cmds[1..][1..] == BssCmds(h, daddr, p);
    BssPages(h, daddr, p);
    var k := daddr / p;
    assert daddr == k * p;
    PagesSplit(k, h.data, p);
    PagesSplit(k, h.data + h.bss, p);
    assert daddr + (h.data + h.bss) == daddr + h.data + h.bss;
  }

  lemma RoundUpAll(x: nat, unit: pos, p: pos)
    requires unit % p == 0
    ensures RoundUp(x, unit) % p == 0
  {
    var k, q := Pages(x, unit), unit / p;
    assert unit == q * p;
    assert k * unit == k * q * p;
    MultipleMod(k * q, p);
  }

  /** AOUT_LDPGSZ must be a multiple of the page size: then and only then does
      every NMAGIC program map as many pages as its sizes say. */
  lemma NmagicPagesIff(unit: pos, p: pos)
    ensures (forall h: Header ::
               Mapped(NmagicCmds(h, RoundUp(h.text, unit), p), p) == Pages(h.text, p) + Pages(h.data + h.bss, p))
            <==> unit % p == 0
  {
    if unit % p == 0 {
      forall h: Header
        ensures Mapped(NmagicCmds(h, RoundUp(h.text, unit), p), p) == Pages(h.text, p) + Pages(h.data + h.bss, p)
      {
        RoundUpAll(h.text, unit, p);
        NmagicPages(h, RoundUp(h.text, unit), p);
      }
    } else {
      var r := unit % p;
      var h := Header(Ilp32, 1, p - r, r, 0);
      OddUnit(unit, p, h);
      assert Mapped(NmagicCmds(h, RoundUp(h.text, unit), p), p) != Pages(h.text, p) + Pages(h.data + h.bss, p);
    }
  }

  /** One byte of text, and data and bss that fill one page but straddle two. */
  lemma OddUnit(unit: pos, p: pos, h: Header)
    requires unit % p != 0 && h == Header(Ilp32, 1, p - unit % p, unit % p, 0)
    ensures Mapped(NmagicCmds(h, RoundUp(h.text, unit), p), p) == Pages(h.text, p) + Pages(h.data + h.bss, p) + 1
  {
    hide Pages, RoundUp;
    var r, k := unit % p, unit / p;
    assert unit == k * p + r;
    OddPages(unit, p, r);
    var cmds := NmagicCmds(h, unit, p);
    assert cmds[1..][0] == cmds[1] && cmds[1..][1..] == BssCmds(h, unit, p);
    BssPages(h, unit, p);
    PagesSplit(k, p, p);
    PagesSplit(k, p + r, p);
    assert unit + h.data == k * p + p && unit + h.data + h.bss == k * p + (p + r);
  }

  lemma OddPages(unit: pos, p: pos, r: nat)
    requires 0 < r < p
    ensures RoundUp(1, unit) == unit
    ensures Pages(1, p) == 1 && Pages(p, p) == 1 && Pages(p - r, p) == 1 && Pages(p + r, p) == 2
  {
    DivUnique(unit, unit, 1, 0);
    DivUnique(p + p - 1, p, 1, p - 1);
    DivUnique(p + r + p - 1, p, 2, r - 1);
    DivUnique(p - r + p - 1, p, 1, p - r - 1);
    DivUnique(1 + p - 1, p, 1, 0);
  }

  // ---- in the arithmetic of a u_long -----------------------------------------------------

  function U(w: Word, x: int): (r: nat)
    ensures r < Mod(w) && (0 <= x < Mod(w) ==> r == x)
  {
    x % Mod(w)
  }

  /** Conversion to long. */
  function Long(w: Word, x: int): (r: int)
    ensures 0 <= Mod(w) + 2 * r < 2 * Mod(w) && (0 <= Mod(w) + 2 * x < 2 * Mod(w) ==> r == x)
  {
    (x + Mod(w) / 2) % Mod(w) - Mod(w) / 2
  }

  /** roundup() with an addition that may wrap around. */
  function RoundUpU(w: Word, x: nat, p: pos): nat {
    var k := U(w, x + p - 1) / p;
    ProductSign(k, p);
    k * p
  }

  predicate PageOf(w: Word, p: pos) {
    Mod(w) % p == 0 && 2 * p <= Mod(w)
  }

  predicate InWord(h: Header) {
    h.text < Mod(h.word) && h.data < Mod(h.word) && h.bss < Mod(h.word)
  }

  lemma LongSame(w: Word, x: int, y: int, k: int)
    requires x == y + k * Mod(w)
    ensures Long(w, x) == Long(w, y)
  {
    var m := Mod(w);
    var z := y + m / 2;
    assert z == m * (z / m) + z % m && x + m / 2 == m * (z / m + k) + z % m;
    ModUnique(x + m / 2, m, z / m + k, z % m);
  }

  lemma UOff(w: Word, x: int) returns (k: int)
    ensures U(w, x) == x + k * Mod(w)
  {
    k := -(x / Mod(w));
  }

  /** Rounding up in a u_long: to the true multiple, or to 0 for one past the end. */
  lemma RoundUpUIs(w: Word, x: nat, p: pos)
    requires x < Mod(w) && Mod(w) % p == 0
    ensures RoundUp(x, p) <= Mod(w) && RoundUpU(w, x, p) == U(w, RoundUp(x, p))
  {
    hide RoundUp, Pages;
    var m, k := Mod(w), Mod(w) / p;
    assert m == k * p;
    RoundUpLeast(x, m, p);
    PagesOfRoundUp(x, p);
    if x + p - 1 < m {
      RoundUpDef(x, p);
    } else {
      SameMultiple(Pages(x, p), k, p);
      assert U(w, x + p - 1) == x + p - 1 - m by { ModUnique(x + p - 1, m, 1, x + p - 1 - m); }
      DivUnique(x + p - 1 - m, p, 0, x + p - 1 - m);
      ModUnique(m, m, 1, 0);
    }
  }

  lemma RoundUpDef(x: nat, p: pos)
    ensures RoundUp(x, p) == (x + p - 1) / p * p
  {
  }

  function BssCmdU(w: Word, bsize: int, baddr: nat): seq<Vmcmd> {
    if bsize > 0 then [Vmcmd(MapZero, bsize, baddr, 0)] else []
  }

  function OmagicCmdsU(h: Header, p: pos): seq<Vmcmd> {
    var w := h.word;
    var baddr := RoundUpU(w, U(w, h.text + h.data), p);
    [Vmcmd(ReadVn, U(w, h.text + h.data), 0, ExecSize(w))] +
    BssCmdU(w, Long(w, h.text + U(w, h.data + h.bss) - baddr), baddr)
  }

  function OmagicDsizeU(h: Header, p: pos): nat {
    var left := Long(h.word, U(h.word, h.data + h.bss) + h.text - RoundUpU(h.word, h.text, p));
    if left > 0 then left else 0
  }

  /** No sum of a header wraps around, nor turns negative as a long. */
  predicate OmagicFits(h: Header, p: pos) {
    var total := h.text + h.data + h.bss;
    && h.text + h.data < Mod(h.word)
    && 2 * (total - RoundUp(h.text, p)) < Mod(h.word)
    && (total > RoundUp(h.text + h.data, p) ==> RoundUp(h.text + h.data, p) < Mod(h.word))
  }

  /** A difference from a rounded address, computed in a u_long and taken as long. */
  lemma LongDiff(w: Word, a: nat, b: nat, x: nat, p: pos)
    requires x < Mod(w) && Mod(w) % p == 0
    ensures Long(w, a + U(w, b) - RoundUpU(w, x, p)) == Long(w, a + b - RoundUp(x, p))
  {
    hide RoundUp, RoundUpU, U, Long;
    RoundUpUIs(w, x, p);
    var k := UOff(w, b);
    var l := UOff(w, RoundUp(x, p));
    assert (k - l) * Mod(w) == k * Mod(w) - l * Mod(w);
    LongSame(w, a + U(w, b) - RoundUpU(w, x, p), a + b - RoundUp(x, p), k - l);
  }

  /** Old OMAGIC in the arithmetic of the machine gives the commands and ep_dsize
      of unbounded arithmetic if and only if the header fits. */
  lemma OmagicExactIff(h: Header, p: pos)
    requires InWord(h) && PageOf(h.word, p)
    ensures OmagicCmdsU(h, p) == OmagicCmds(h, p) && OmagicDsizeU(h, p) == OmagicDsize(h, p) <==> OmagicFits(h, p)
  {
    hide RoundUp, RoundUpU, U, Long;
    var w, x := h.word, h.text + h.data;
    LongDiff(w, h.text, h.data + h.bss, h.text, p);
    assert OmagicCmdsU(h, p)[0].size == U(w, x) && OmagicCmds(h, p)[0].size == x;
    if x < Mod(w) {
      LongDiff(w, h.text, h.data + h.bss, x, p);
      RoundUpUIs(w, x, p);
      RoundUpLeast(h.text, RoundUp(x, p), p);
      var q := x + h.bss - RoundUp(x, p);
      assert |OmagicCmds(h, p)| == 2 ==> OmagicCmds(h, p)[1] == Vmcmd(MapZero, q, RoundUp(x, p), 0);
    }
  }

  /** A header that does not: half the address space of text and of data, of which
      nothing is mapped. */
  lemma OmagicWrapFails(p: pos)
    requires PageOf(Ilp32, p)
    ensures var h := Header(Ilp32, 0x8000_0000, 0x8000_0000, 0, 0);
      Mapped(OmagicCmdsU(h, p), p) == 0 < Pages(h.text, p)
  {
    hide RoundUp, RoundUpU, U, Long;
    var h := Header(Ilp32, 0x8000_0000, 0x8000_0000, 0, 0);
    UIs(Ilp32, 0x1_0000_0000, 0);
    LongDiff(Ilp32, h.text, h.data, 0, p);
    RoundUpUIs(Ilp32, 0, p);
    RoundUpLeast(0, 0, p);
    LongSame(Ilp32, 0x1_0000_0000, 0, 1);
    PagesOfZero(p);
    assert OmagicCmdsU(h, p)[1..] == [];
    PagesOfRoundUp(h.text, p);
    assert Pages(h.text, p) * p > 0;
  }

  function NmagicDaddrU(h: Header, unit: pos): nat {
    RoundUpU(h.word, h.text, unit)
  }

  function NmagicCmdsU(h: Header, unit: pos, p: pos): seq<Vmcmd> {
    var w, daddr := h.word, NmagicDaddrU(h, unit);
    var baddr := RoundUpU(w, U(w, daddr + h.data), p);
    [Vmcmd(ReadVn, h.text, 0, ExecSize(w)), Vmcmd(ReadVn, h.data, daddr, U(w, h.text + ExecSize(w)))] +
    BssCmdU(w, Long(w, daddr + U(w, h.data + h.bss) - baddr), baddr)
  }

  predicate NmagicFits(h: Header, unit: pos, p: pos) {
    var daddr := RoundUp(h.text, unit);
    var baddr := RoundUp(daddr + h.data, p);
    var bsize := daddr + h.data + h.bss - baddr;
    && daddr < Mod(h.word) && h.text + ExecSize(h.word) < Mod(h.word) && h.data + h.bss < Mod(h.word)
    && (bsize > 0 ==> baddr < Mod(h.word) && 2 * bsize < Mod(h.word))
  }

  /** The bss address and size when data ends beyond the last address, too. */
  lemma NmagicBss(w: Word, daddr: nat, data: nat, bss: nat, p: pos)
    requires daddr < Mod(w) && data < Mod(w) && PageOf(w, p)
    ensures var baddr := RoundUpU(w, U(w, daddr + data), p);
      && baddr == U(w, RoundUp(daddr + data, p))
      && Long(w, daddr + U(w, data + bss) - baddr) == Long(w, daddr + data + bss - RoundUp(daddr + data, p))
  {
    hide RoundUp, RoundUpU, U, Long;
    var x, m := daddr + data, Mod(w);
    var y := if x < m then x else x - m;
    assert U(w, x) == y by { UIs(w, x, y); }
    LongDiff(w, daddr, data + bss, y, p);
    RoundUpUIs(w, y, p);
    if x >= m {
      RoundUpAligned(y, m, p);
      UAgain(w, RoundUp(y, p));
      LongSame(w, daddr + data + bss - RoundUp(y, p), daddr + data + bss - RoundUp(x, p), 1);
    }
  }

  lemma UIs(w: Word, x: nat, y: nat)
    requires y < Mod(w) && (x == y || x == y + Mod(w))
    ensures U(w, x) == y
  {
    ModUnique(x, Mod(w), if x == y then 0 else 1, y);
  }

  lemma UAgain(w: Word, x: nat)
    requires x <= Mod(w)
    ensures U(w, Mod(w) + x) == U(w, x)
  {
    var m := Mod(w);
    if x == m {
      ModUnique(m + m, m, 2, 0);
      ModUnique(m, m, 1, 0);
    } else {
      ModUnique(m + x, m, 1, x);
    }
  }

  lemma NmagicExactIff(h: Header, unit: pos, p: pos)
    requires InWord(h) && PageOf(h.word, p) && PageOf(h.word, unit)
    ensures var daddr := RoundUp(h.text, unit);
      (NmagicDaddrU(h, unit) == daddr && U(h.word, h.data + h.bss) == h.data + h.bss &&
       NmagicCmdsU(h, unit, p) == NmagicCmds(h, daddr, p)) <==> NmagicFits(h, unit, p)
  {
    hide RoundUp, RoundUpU, U, Long;
    var w, daddr := h.word, RoundUp(h.text, unit);
    RoundUpUIs(w, h.text, unit);
    assert NmagicCmdsU(h, unit, p)[1].offset == U(w, h.text + ExecSize(w));
    assert NmagicCmds(h, daddr, p)[1].offset == h.text + ExecSize(w);
    if daddr < Mod(w) {
      NmagicBss(w, daddr, h.data, h.bss, p);
      var baddr := RoundUp(daddr + h.data, p);
      assert |NmagicCmds(h, daddr, p)| == 3 ==>
        NmagicCmds(h, daddr, p)[2] == Vmcmd(MapZero, daddr + h.data + h.bss - baddr, baddr, 0);
    }
  }

  // ---- the exec package -------------------------------------------------------------

  class ExecPackage {
    const hdr: Header
    var taddr: nat
    var tsize: nat
    var daddr: nat
    var dsize: nat
    var entry: nat
    var vmcmds: seq<Vmcmd>

    constructor (hdr: Header)
      ensures this.hdr == hdr && vmcmds == []
    {
      this.hdr := hdr;
      taddr, tsize, daddr, dsize, entry, vmcmds := 0, 0, 0, 0, 0, [];
    }

    method PrepOldOmagic(page: pos)
      requires vmcmds == [] && InWord(hdr) && PageOf(hdr.word, page)
      modifies this
      ensures taddr == 0 && tsize == hdr.text && daddr == hdr.text && entry == hdr.entry
      ensures dsize == OmagicDsizeU(hdr, page) && vmcmds == OmagicCmdsU(hdr, page)
      ensures OmagicFits(hdr, page) ==>
        && Loaded(hdr, vmcmds, daddr, page) && Disjoint(vmcmds, page)
        // obreak(2) relies on this
        && Mapped(vmcmds, page) == Pages(tsize, page) + Pages(dsize, page)
    {
      hide RoundUp, RoundUpU, Long, Loaded, Disjoint, OmagicFits, Pages, Mapped;
      var w := hdr.word;
      taddr := 0;
      tsize := hdr.text;
      daddr := U(w, taddr + hdr.text);
      dsize := U(w, hdr.data + hdr.bss);
      entry := hdr.entry;
      vmcmds := vmcmds + [Vmcmd(ReadVn, U(w, hdr.text + hdr.data), taddr, ExecSize(w))];
      var baddr := RoundUpU(w, U(w, daddr + hdr.data), page);
      var bsize := Long(w, daddr + dsize - baddr);
      if bsize > 0 {
        vmcmds := vmcmds + [Vmcmd(MapZero, bsize, baddr, 0)];
      }
      var left := Long(w, dsize + hdr.text - RoundUpU(w, hdr.text, page));
      dsize := if left > 0 then left else 0;
      OmagicExactIff(hdr, page);
      OmagicPages(hdr, page);
      OmagicLoads(hdr, page);
    }

    method PrepOldNmagic(page: pos, ldpgsz: pos)
      requires vmcmds == [] && InWord(hdr) && PageOf(hdr.word, page) && PageOf(hdr.word, ldpgsz)
      modifies this
      ensures taddr == 0 && tsize == hdr.text && daddr == NmagicDaddrU(hdr, ldpgsz) && entry == hdr.entry
      ensures dsize == U(hdr.word, hdr.data + hdr.bss) && vmcmds == NmagicCmdsU(hdr, ldpgsz, page)
      ensures ldpgsz % page == 0 && NmagicFits(hdr, ldpgsz, page) ==>
        && Loaded(hdr, vmcmds, daddr, page) && Disjoint(vmcmds, page)
        && Mapped(vmcmds, page) == Pages(tsize, page) + Pages(dsize, page)
    {
      hide RoundUp, RoundUpU, Long, Loaded, Disjoint, NmagicFits, NmagicCmds, Pages, Mapped;
      var w := hdr.word;
      taddr := 0;
      tsize := hdr.text;
      daddr := RoundUpU(w, U(w, taddr + hdr.text), ldpgsz);
      dsize := U(w, hdr.data + hdr.bss);
      entry := hdr.entry;
      vmcmds := vmcmds + [Vmcmd(ReadVn, hdr.text, taddr, ExecSize(w))];
      vmcmds := vmcmds + [Vmcmd(ReadVn, hdr.data, daddr, U(w, hdr.text + ExecSize(w)))];
      var baddr := RoundUpU(w, U(w, daddr + hdr.data), page);
      var bsize := Long(w, daddr + dsize - baddr);
      if bsize > 0 {
        vmcmds := vmcmds + [Vmcmd(MapZero, bsize, baddr, 0)];
      }
      NmagicExactIff(hdr, ldpgsz, page);
      if ldpgsz % page == 0 {
        RoundUpAll(hdr.text, ldpgsz, page);
        NmagicPages(hdr, RoundUp(hdr.text, ldpgsz), page);
        NmagicLoads(hdr, RoundUp(hdr.text, ldpgsz), page);
      }
    }
  }
}
