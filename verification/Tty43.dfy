/** The old terminal ioctls of tty_43.c: one 32-bit flag word, kept in pieces
    in the four termios words and, partly, in t_flags.  A flag word is the set
    of the positions of its one bits; a flag is its bit's position. */
module Tty43 {
  import opened Bytes

  type Flags = set<int>

  // old flags, low half: set by TIOCSETP and TIOCSETN
  const TANDEM := 0
  const CBREAK := 1
  const CRMOD := 4
  const RAW := 5
  const ODDP := 6
  const EVENP := 7
  const XTAB0 := 10   // XTABS is both bits
  const XTAB1 := 11
  // old flags, high half: the local mode word
  const CRTBS := 16
  const PRTERA := 17
  const CRTERA := 18
  const TILDE := 19
  const LITOUT := 21
  const NOHANG := 24
  const L001000 := 25
  const CRTKIL := 26
  const PASS8 := 27
  const CTLECH := 28
  const DECCTQ := 30
  // the same bit in the old word and in a termios word
  const ECHO := 3
  const MDMBUF := 20
  const TOSTOP := 22
  const FLUSHO := 23
  const PENDIN := 29
  const NOFLSH := 31
  // c_iflag
  const BRKINT := 1
  const INPCK := 4
  const ISTRIP := 5
  const ICRNL := 8
  const IXON := 9
  const IXOFF := 10
  const IXANY := 11
  const IMAXBEL := 13
  // c_oflag
  const OPOST := 0
  const ONLCR := 1
  const OXTABS := 2
  // c_cflag; CSIZE is two bits, CS7 the upper one, CS8 both
  const CIGNORE := 0
  const CSIZE0 := 8
  const CSIZE1 := 9
  const PARENB := 12
  const PARODD := 13
  const HUPCL := 14
  // c_lflag
  const ECHOKE := 0
  const ECHOE := 1
  const ECHOPRT := 5
  const ECHOCTL := 6
  const ISIG := 7
  const ICANON := 8
  const IEXTEN := 10
  const EXTPROC := 11

  /** SET or CLR of the flags `m`. */
  function Put(x: Flags, m: Flags, on: bool): Flags {
    if on then x + m else x - m
  }

  /** `x << 16` in 32 bits. */
  function Shl16(x: Flags): Flags {
    set b {:trigger b in x} | b in x && 0 <= b < 16 :: b + 16
  }

  /** `x & 0xffff` and `x & 0xffff0000`. */
  function Half0(x: Flags): Flags {
    set b | b < 16 && b in x
  }

  function Half1(x: Flags): Flags {
    set b | 16 <= b < 32 && b in x
  }

  datatype Modes = Modes(iflag: Flags, oflag: Flags, lflag: Flags, cflag: Flags)

  // ---- what an old program can see ---------------------------------------------

  /** Not canonical, and no sign of cooked input left. */
  predicate IsRaw(t: Modes) {
    ICANON !in t.lflag && IXON !in t.iflag && ISIG !in t.lflag && IEXTEN !in t.lflag && PARENB !in t.cflag
  }

  predicate Is8(c: Flags) {
    CSIZE0 in c && CSIZE1 in c
  }

  /** Bit `b` of the low half of the word. */
  predicate LowBit(t: Modes, b: int) {
    if b == TANDEM then IXOFF in t.iflag
    else if b == ECHO then ECHO in t.lflag
    else if b == CRMOD then ICRNL in t.iflag || ONLCR in t.oflag
    else if b == RAW then IsRaw(t)
    else if b == CBREAK then ICANON !in t.lflag && !IsRaw(t)
    else if b == ODDP then PARENB in t.cflag && (INPCK !in t.iflag || PARODD in t.cflag)
    else if b == EVENP then PARENB in t.cflag && (INPCK !in t.iflag || PARODD !in t.cflag)
    else (b == XTAB0 || b == XTAB1) && OXTABS in t.oflag
  }

  /** LITOUT and PASS8; of a raw terminal only the cached t_flags know them. */
  predicate EightBit(t: Modes, cached: Flags, b: int) {
    if IsRaw(t) then b in cached
    else Is8(t.cflag) && if b == LITOUT then OPOST !in t.oflag else ISTRIP !in t.iflag
  }

  /** Bit `b` of the local half. */
  predicate LocalBit(t: Modes, cached: Flags, b: int) {
    if b == LITOUT || b == PASS8 then EightBit(t, cached, b)
    else if b == MDMBUF then MDMBUF in t.cflag
    else if b == NOHANG then HUPCL !in t.cflag
    else if b == CRTERA then ECHOE in t.lflag
    else if b == CRTKIL then ECHOKE in t.lflag
    else if b == CRTBS then ECHOE in t.lflag || ECHOKE in t.lflag
    else if b == PRTERA then ECHOPRT in t.lflag
    else if b == CTLECH then ECHOCTL in t.lflag
    else if b == DECCTQ then IXANY !in t.iflag
    else (b == TOSTOP || b == FLUSHO || b == PENDIN || b == NOFLSH) && b in t.lflag
  }

  /** The word ttcompatgetflags reports. */
  function Word(t: Modes, cached: Flags): Flags {
    set b | 0 <= b < 32 && if b < 16 then LowBit(t, b) else LocalBit(t, cached, b)
  }

  // ---- ttcompatsetflags and ttcompatsetlflags, word by word -----------------------

  function SetSize(c: Flags, f: Flags): Flags {
    if RAW in f || LITOUT in f || PASS8 in f then c - {CSIZE0, CSIZE1} + {CSIZE0, CSIZE1}
    else c - {CSIZE0, CSIZE1} + {CSIZE1}
  }

  function FlagsI(i: Flags, f: Flags): Flags {
    var i := Put(Put(i, {IXOFF}, TANDEM in f), {ICRNL}, CRMOD in f);
    var i := if RAW in f then i * {IXOFF}
             else
               var i := i + {BRKINT, IXON, IMAXBEL};
               if ODDP in f || EVENP in f then Put(i, {INPCK}, (ODDP in f) != (EVENP in f)) else i;
    Put(i, {ISTRIP}, RAW !in f && PASS8 !in f)
  }

  function FlagsO(o: Flags, f: Flags): Flags {
    Put(Put(Put(o, {ONLCR}, CRMOD in f), {OXTABS}, XTAB0 in f || XTAB1 in f), {OPOST}, RAW !in f && LITOUT !in f)
  }

  function FlagsL(l: Flags, f: Flags): Flags {
    var l := Put(l, {ECHO}, ECHO in f);
    if RAW in f then l - {ISIG, ICANON, IEXTEN} else Put(l + {ISIG, IEXTEN}, {ICANON}, CBREAK !in f)
  }

  function FlagsC(c: Flags, f: Flags): Flags {
    var c := Put(c, {PARENB}, RAW !in f && (ODDP in f || EVENP in f));
    SetSize(if RAW !in f && (ODDP in f) != (EVENP in f) then Put(c, {PARODD}, ODDP in f) else c, f)
  }

  /** The termios that ttcompatsetflags makes for the word `f`. */
  function WithFlags(t: Modes, f: Flags): Modes {
    Modes(FlagsI(t.iflag, f), FlagsO(t.oflag, f), FlagsL(t.lflag, f), FlagsC(t.cflag, f))
  }

  function LocalI(i: Flags, f: Flags): Flags {
    Put(Put(i, {IXANY}, DECCTQ !in f), {ISTRIP}, RAW !in f && PASS8 !in f)
  }

  function LocalO(o: Flags, f: Flags): Flags {
    Put(o, {OPOST}, RAW !in f && LITOUT !in f)
  }

  function LocalL(l: Flags, f: Flags): Flags {
    var l := Put(Put(Put(Put(l, {ECHOPRT}, PRTERA in f), {ECHOE}, CRTERA in f), {ECHOKE}, CRTKIL in f),
                 {ECHOCTL}, CTLECH in f);
    l - {TOSTOP, FLUSHO, PENDIN, NOFLSH} + f * {TOSTOP, FLUSHO, PENDIN, NOFLSH}
  }

  function LocalC(c: Flags, f: Flags): Flags {
    SetSize(Put(Put(c, {MDMBUF}, MDMBUF in f), {HUPCL}, NOHANG !in f), f)
  }

  /** The termios that ttcompatsetlflags makes for the word `f`. */
  function WithLocal(t: Modes, f: Flags): Modes {
    Modes(LocalI(t.iflag, f), LocalO(t.oflag, f), LocalL(t.lflag, f), LocalC(t.cflag, f))
  }

  // ---- TIOCSETA and TIOCSETAF -------------------------------------------------------

  /** Input is pending: it was, and no change of ICANON took it up; or, without a
      flush, canonical mode has just come back. */
  predicate Pending(tl: Flags, l: Flags, flush: bool) {
    if flush || (ICANON in tl) == (ICANON in l) then PENDIN in tl else ICANON in l
  }

  function InstalledL(tl: Flags, l: Flags, flush: bool): Flags {
    Put(l, {EXTPROC}, EXTPROC in tl) + if Pending(tl, l, flush) then {PENDIN} else {}
  }

  /** What ttioctl leaves in the termios `tp` when it installs `t`: EXTPROC is
      read-only, and CIGNORE keeps the control modes. */
  function Installed(tp: Modes, t: Modes, flush: bool): Modes {
    Modes(t.iflag, t.oflag, InstalledL(tp.lflag, t.lflag, flush), if CIGNORE in t.cflag then tp.cflag else t.cflag)
  }

  // ---- the machine old programs can reckon with ---------------------------------------

  /** The local bits a terminal can hold: TILDE and L001000 are dropped, CRTBS
      only follows CRTERA and CRTKIL. */
  function CanonLocal(f: Flags): Flags {
    set b | 16 <= b < 32 && b != TILDE && b != L001000 &&
            if b == CRTBS then CRTERA in f || CRTKIL in f else b in f
  }

  /** The low bits a terminal can hold: XTABS is all or nothing, RAW drops CBREAK
      and parity, the rest is dropped. */
  function CanonLow(f: Flags): Flags {
    f * {TANDEM, ECHO, CRMOD} + (if XTAB0 in f || XTAB1 in f then {XTAB0, XTAB1} else {}) +
    if RAW in f then {RAW} else f * {CBREAK, ODDP, EVENP}
  }

  /** After a local-mode ioctl that asks for `f`: the low half stays, the local
      half is what was asked for, and pending input is never forgotten. */
  function NextLocal(w: Flags, f: Flags): Flags {
    Half0(w) + CanonLocal(f) + w * {PENDIN}
  }

  /** After TIOCSETP or TIOCSETN asks for `f`: the low half is what was asked for,
      the local half stays, but RAW forces DECCTQ, and a return to canonical mode
      without a flush leaves input pending. */
  function NextLow(w: Flags, f: Flags, flush: bool): Flags {
    CanonLow(f) + Half1(w) + (if RAW in f then {DECCTQ} else {}) +
    if !flush && (RAW in w || CBREAK in w) && RAW !in f && CBREAK !in f then {PENDIN} else {}
  }

  // ---- what each setter does to the bits a program can see ----------------------------

  lemma FlagsIBits(i: Flags, f: Flags)
    ensures var u := FlagsI(i, f);
      && (IXOFF in u <==> TANDEM in f) && (ICRNL in u <==> CRMOD in f && RAW !in f)
      && (IXON in u <==> RAW !in f) && (IXANY in u <==> IXANY in i && RAW !in f)
      && (ISTRIP in u <==> RAW !in f && PASS8 !in f)
      && (RAW !in f && (ODDP in f || EVENP in f) ==> (INPCK in u <==> !(ODDP in f && EVENP in f)))
      && (RAW !in f && ODDP !in f && EVENP !in f ==> (INPCK in u <==> INPCK in i))
      && (RAW !in f ==> BRKINT in u && IMAXBEL in u)
      && (RAW in f ==> u <= {IXOFF})
      && forall b {:trigger b in u} :: RAW !in f && b !in {IXOFF, ICRNL, IXON, ISTRIP, INPCK, BRKINT, IMAXBEL} ==>
           (b in u <==> b in i)
  {
  }

  lemma FlagsOBits(o: Flags, f: Flags)
    ensures var u := FlagsO(o, f);
      && (ONLCR in u <==> CRMOD in f) && (OXTABS in u <==> XTAB0 in f || XTAB1 in f)
      && (OPOST in u <==> RAW !in f && LITOUT !in f)
      && forall b {:trigger b in u} :: b !in {ONLCR, OXTABS, OPOST} ==> (b in u <==> b in o)
  {
  }

  lemma FlagsLBits(l: Flags, f: Flags)
    ensures var u := FlagsL(l, f);
      && (ECHO in u <==> ECHO in f) && (ICANON in u <==> RAW !in f && CBREAK !in f)
      && (ISIG in u <==> RAW !in f) && (IEXTEN in u <==> RAW !in f)
      && forall b {:trigger b in u} :: b !in {ECHO, ICANON, ISIG, IEXTEN} ==> (b in u <==> b in l)
  {
  }

  lemma FlagsCBits(c: Flags, f: Flags)
    ensures var u := FlagsC(c, f);
      && (PARENB in u <==> RAW !in f && (ODDP in f || EVENP in f))
      && (RAW !in f && (ODDP in f) != (EVENP in f) ==> (PARODD in u <==> ODDP in f))
      && (RAW in f || (ODDP in f) == (EVENP in f) ==> (PARODD in u <==> PARODD in c))
      && (Is8(u) <==> RAW in f || LITOUT in f || PASS8 in f)
      && CSIZE1 in u && (CSIZE0 in u <==> RAW in f || LITOUT in f || PASS8 in f)
      && forall b {:trigger b in u} :: b !in {PARENB, PARODD, CSIZE0, CSIZE1} ==> (b in u <==> b in c)
  {
  }

  lemma LocalIBits(i: Flags, f: Flags)
    ensures var u := LocalI(i, f);
      && (IXANY in u <==> DECCTQ !in f) && (ISTRIP in u <==> RAW !in f && PASS8 !in f)
      && forall b {:trigger b in u} :: b !in {IXANY, ISTRIP} ==> (b in u <==> b in i)
  {
  }

  lemma LocalOBits(o: Flags, f: Flags)
    ensures var u := LocalO(o, f);
      && (OPOST in u <==> RAW !in f && LITOUT !in f)
      && forall b {:trigger b in u} :: b != OPOST ==> (b in u <==> b in o)
  {
  }

  lemma LocalLBits(l: Flags, f: Flags)
    ensures var u := LocalL(l, f);
      && (ECHOPRT in u <==> PRTERA in f) && (ECHOE in u <==> CRTERA in f)
      && (ECHOKE in u <==> CRTKIL in f) && (ECHOCTL in u <==> CTLECH in f)
      && (TOSTOP in u <==> TOSTOP in f) && (FLUSHO in u <==> FLUSHO in f)
      && (PENDIN in u <==> PENDIN in f) && (NOFLSH in u <==> NOFLSH in f)
      && forall b {:trigger b in u} ::
           b !in {ECHOPRT, ECHOE, ECHOKE, ECHOCTL, TOSTOP, FLUSHO, PENDIN, NOFLSH} ==> (b in u <==> b in l)
  {
  }

  lemma LocalCBits(c: Flags, f: Flags)
    ensures var u := LocalC(c, f);
      && (MDMBUF in u <==> MDMBUF in f) && (HUPCL in u <==> NOHANG !in f)
      && (Is8(u) <==> RAW in f || LITOUT in f || PASS8 in f)
      && CSIZE1 in u && (CSIZE0 in u <==> RAW in f || LITOUT in f || PASS8 in f)
      && forall b {:trigger b in u} :: b !in {MDMBUF, HUPCL, CSIZE0, CSIZE1} ==> (b in u <==> b in c)
  {
  }

  lemma InstalledLBits(tl: Flags, l: Flags, flush: bool)
    ensures var u := InstalledL(tl, l, flush);
      && (PENDIN in u <==> PENDIN in l || Pending(tl, l, flush)) && (EXTPROC in u <==> EXTPROC in tl)
      && forall b {:trigger b in u} :: b !in {EXTPROC, PENDIN} ==> (b in u <==> b in l)
  {
  }

  lemma LocalStepLow(t: Modes, f: Flags, flush: bool, b: int)
    ensures var u := Installed(t, WithLocal(t, f), flush);
            CIGNORE !in t.cflag ==> LowBit(u, b) == LowBit(t, b) && IsRaw(u) == IsRaw(t) &&
                                    (PENDIN in u.lflag <==> PENDIN in f || PENDIN in t.lflag)
  {
    hide LocalI, LocalO, LocalL, LocalC, InstalledL, Is8;
    LocalIBits(t.iflag, f);
    LocalOBits(t.oflag, f);
    LocalLBits(t.lflag, f);
    LocalCBits(t.cflag, f);
    InstalledLBits(t.lflag, LocalL(t.lflag, f), flush);
  }

  lemma LocalStepLocals(t: Modes, f: Flags, flush: bool)
    ensures var u := Installed(t, WithLocal(t, f), flush);
      CIGNORE !in t.cflag ==>
        && CIGNORE !in u.cflag
        && (Is8(u.cflag) <==> RAW in f || LITOUT in f || PASS8 in f)
        && (OPOST in u.oflag <==> RAW !in f && LITOUT !in f) && (ISTRIP in u.iflag <==> RAW !in f && PASS8 !in f)
        && (MDMBUF in u.cflag <==> MDMBUF in f) && (HUPCL in u.cflag <==> NOHANG !in f)
        && (ECHOPRT in u.lflag <==> PRTERA in f) && (ECHOE in u.lflag <==> CRTERA in f)
        && (ECHOKE in u.lflag <==> CRTKIL in f) && (ECHOCTL in u.lflag <==> CTLECH in f)
        && (TOSTOP in u.lflag <==> TOSTOP in f) && (FLUSHO in u.lflag <==> FLUSHO in f)
        && (NOFLSH in u.lflag <==> NOFLSH in f) && (IXANY in u.iflag <==> DECCTQ !in f)
  {
    hide LocalI, LocalO, LocalL, LocalC, InstalledL, Is8;
    LocalIBits(t.iflag, f);
    LocalOBits(t.oflag, f);
    LocalLBits(t.lflag, f);
    LocalCBits(t.cflag, f);
    InstalledLBits(t.lflag, LocalL(t.lflag, f), flush);
  }

  lemma LocalStepEight(t: Modes, f: Flags, flush: bool, b: int)
    requires CIGNORE !in t.cflag && (RAW in f) == IsRaw(t)
    ensures b == LITOUT || b == PASS8 ==> (EightBit(Installed(t, WithLocal(t, f), flush), f, b) <==> b in f)
  {
    hide Installed, WithLocal, IsRaw, Is8;
    LocalStepLow(t, f, flush, b);
    LocalStepLocals(t, f, flush);
  }

  lemma LocalStepHigh(t: Modes, f: Flags, flush: bool, b: int)
    requires CIGNORE !in t.cflag && (RAW in f) == IsRaw(t) && 16 <= b < 32
    ensures LocalBit(Installed(t, WithLocal(t, f), flush), f, b) <==>
            b in CanonLocal(f) || (b == PENDIN && PENDIN in t.lflag)
  {
    hide Installed, WithLocal, IsRaw, Is8, EightBit, LowBit, CanonLocal;
    InCanonLocal(f, b);
    if b == LITOUT || b == PASS8 {
      LocalStepEight(t, f, flush, b);
    } else {
      LocalStepLow(t, f, flush, b);
      LocalStepLocals(t, f, flush);
    }
  }

  lemma LowStepBit(t: Modes, cached: Flags, f: Flags, flush: bool, b: int)
    requires CIGNORE !in t.cflag && 0 <= b < 32
    requires (LITOUT in f) == LocalBit(t, cached, LITOUT) && (PASS8 in f) == LocalBit(t, cached, PASS8)
    ensures var u := Installed(t, WithFlags(t, f), flush);
            if b < 16 then LowBit(u, b) <==> b in CanonLow(f)
            else LocalBit(u, f, b) <==>
                   LocalBit(t, cached, b) || (b == DECCTQ && RAW in f) ||
                   (b == PENDIN && !flush && ICANON !in t.lflag && RAW !in f && CBREAK !in f)
  {
    hide FlagsI, FlagsO, FlagsL, FlagsC, InstalledL, Is8;
    FlagsIBits(t.iflag, f);
    FlagsOBits(t.oflag, f);
    FlagsLBits(t.lflag, f);
    FlagsCBits(t.cflag, f);
    InstalledLBits(t.lflag, FlagsL(t.lflag, f), flush);
  }

  lemma LocalStep(t: Modes, cached: Flags, f: Flags, flush: bool)
    requires CIGNORE !in t.cflag && (RAW in f) == IsRaw(t)
    ensures Word(Installed(t, WithLocal(t, f), flush), f) == NextLocal(Word(t, cached), f)
  {
    hide Installed, WithLocal, LowBit, LocalBit, IsRaw, CanonLocal;
    var u := Installed(t, WithLocal(t, f), flush);
    PendinBit(t, cached);
    forall b ensures b in Word(u, f) <==> b in NextLocal(Word(t, cached), f) {
      InCanonLocal(f, b);
      LocalStepLow(t, f, flush, b);
      if 16 <= b < 32 {
        LocalStepHigh(t, f, flush, b);
      }
    }
  }

  lemma InCanonLocal(f: Flags, b: int)
    ensures b in CanonLocal(f) ==> 16 <= b < 32
    ensures 16 <= b < 32 ==>
      (b in CanonLocal(f) <==>
       (b != TILDE && b != L001000 && if b == CRTBS then CRTERA in f || CRTKIL in f else b in f))
  {
  }

  lemma PendinBit(t: Modes, cached: Flags)
    ensures LocalBit(t, cached, PENDIN) == (PENDIN in t.lflag)
  {
  }

  lemma InCanonLow(f: Flags, b: int)
    ensures b in CanonLow(f) ==> 0 <= b < 16
  {
  }

  lemma CanonBits(t: Modes, cached: Flags)
    ensures RAW in Word(t, cached) || CBREAK in Word(t, cached) <==> ICANON !in t.lflag
  {
  }

  lemma LowStep(t: Modes, cached: Flags, f: Flags, flush: bool)
    requires CIGNORE !in t.cflag
    requires (LITOUT in f) == (LITOUT in Word(t, cached)) && (PASS8 in f) == (PASS8 in Word(t, cached))
    ensures Word(Installed(t, WithFlags(t, f), flush), f) == NextLow(Word(t, cached), f, flush)
  {
    hide Installed, WithFlags, LowBit, LocalBit, CanonLow;
    var u := Installed(t, WithFlags(t, f), flush);
    CanonBits(t, cached);
    forall b ensures b in Word(u, f) <==> b in NextLow(Word(t, cached), f, flush) {
      InCanonLow(f, b);
      if 0 <= b < 32 {
        LowStepBit(t, cached, f, flush, b);
      }
    }
  }

  // ---- line speeds ----------------------------------------------------------------------

  const MAX_SPEED := 17

  const SPEEDTAB: seq<(int, int)> := [
    (115200, 17), (57600, 16), (38400, 15), (19200, 14), (9600, 13), (4800, 12), (2400, 11), (1800, 10),
    (1200, 9), (600, 8), (300, 7), (200, 6), (150, 5), (134, 4), (110, 3), (75, 2), (50, 1), (0, 0)]

  const SPEEDCODES: seq<int> := [
    0, 50, 75, 110, 134, 150, 200, 300, 600, 1200, 1800, 2400, 4800, 9600, 19200, 38400, 57600, 115200]

  function Lookup(tab: seq<(int, int)>, speed: int): int {
    if tab == [] then -1 else if tab[0].0 == speed then tab[0].1 else Lookup(tab[1..], speed)
  }

  /** The old code reported for a line speed. */
  function Code(speed: int): int {
    var c := Lookup(SPEEDTAB, speed);
    if c == -1 then MAX_SPEED else c
  }

  /** The line speed an old program asks for. */
  function Speed(code: int): int {
    if code > MAX_SPEED || code < 0 then code else SPEEDCODES[code]
  }

  /** The speeds in baud, by code. */
  lemma Bauds()
    ensures Speed(1) == 50 && Speed(2) == 75 && Speed(3) == 110 && Speed(4) == 134 && Speed(5) == 150 && Speed(6) == 200
    ensures Speed(7) == 300 && Speed(8) == 600 && Speed(9) == 1200 && Speed(10) == 1800 && Speed(11) == 2400
    ensures Speed(12) == 4800 && Speed(13) == 9600 && Speed(14) == 19200 && Speed(15) == 38400
    ensures Speed(16) == 57600 && Speed(17) == 115200
  {
  }

  lemma Entry(i: nat)
    requires i < |SPEEDTAB|
    ensures SPEEDTAB[i].1 == MAX_SPEED - i
  {
  }

  lemma {:induction false} LookupAt(tab: seq<(int, int)>, i: nat)
    requires i < |tab| && forall j :: 0 <= j < i ==> tab[j].0 != tab[i].0
    ensures Lookup(tab, tab[i].0) == tab[i].1
  {
    if i > 0 {
      LookupAt(tab[1..], i - 1);
    }
  }

  /** Only a speed the table lacks gets -1. */
  lemma {:induction false} LookupIff(tab: seq<(int, int)>, speed: int)
    requires forall i :: 0 <= i < |tab| ==> tab[i].1 != -1
    ensures Lookup(tab, speed) == -1 <==> forall i :: 0 <= i < |tab| ==> tab[i].0 != speed
  {
    if tab != [] {
      LookupIff(tab[1..], speed);
      if forall i :: 0 <= i < |tab[1..]| ==> tab[1..][i].0 != speed {
        forall i | 0 < i < |tab| ensures tab[i].0 != speed { assert tab[i] == tab[1..][i - 1]; }
      } else {
        var i :| 0 <= i < |tab[1..]| && tab[1..][i].0 == speed;
        assert tab[i + 1].0 == speed;
      }
    }
  }

  /** A speed the table lacks is reported as its highest. */
  lemma UnknownSpeed(speed: int)
    requires forall i :: 0 <= i < |SPEEDTAB| ==> SPEEDTAB[i].0 != speed
    ensures Code(speed) == 17
  {
    forall i | 0 <= i < |SPEEDTAB| ensures SPEEDTAB[i].1 != -1 { Entry(i); }
    LookupIff(SPEEDTAB, speed);
  }

  /** Every code the table knows is reported as it was set. */
  lemma SpeedReadsBack(code: int)
    requires 0 <= code <= MAX_SPEED
    ensures Code(Speed(code)) == code
  {
    var s := Speed(code);
    assert SPEEDTAB[MAX_SPEED - code] == (s, code);
    LookupAt(SPEEDTAB, MAX_SPEED - code);
  }

  // ---- one ioctl, on values ---------------------------------------------------------------

  datatype Sgttyb = Sgttyb(ispeed: int, ospeed: int, erase: byte, kill: byte, flags: Flags)

  datatype Term = Term(modes: Modes, ispeed: int, ospeed: int, erase: byte, kill: byte)

  /** A terminal: the installed termios and the cached t_flags. */
  datatype State = State(term: Term, cached: Flags)

  datatype Ioctl =
    | SetP(sg: Sgttyb)    // TIOCSETP, flushes input
    | SetN(sg: Sgttyb)
    | LSet(data: Flags)
    | LBis(data: Flags)
    | LBic(data: Flags)
    | Hpcl

  /** What waiting for output and the driver's t_param return. */
  datatype Dev = Dev(wait: int, param: int)

  /** The word an ioctl asks for, given the word now. */
  function Requested(w: Flags, op: Ioctl): Flags {
    match op
    case SetP(sg) => Half1(w) + Half0(sg.flags)
    case SetN(sg) => Half1(w) + Half0(sg.flags)
    case LSet(data) => Half0(w) + Shl16(data)
    case LBis(data) => w + Shl16(data)
    case LBic(data) => w - Shl16(data)
    case Hpcl => w
  }

  /** The error ttioctl returns; it installs nothing then. */
  function InstallError(t: Term, flush: bool, dev: Dev): int {
    if flush && dev.wait != 0 then dev.wait
    else if CIGNORE !in t.modes.cflag then dev.param
    else 0
  }

  function Install(tp: Term, t: Term, flush: bool): Term {
    var keep := CIGNORE in t.modes.cflag;
    Term(Installed(tp.modes, t.modes, flush),
         if keep then tp.ispeed else t.ispeed, if keep then tp.ospeed else t.ospeed, t.erase, t.kill)
  }

  /** The termios an ioctl makes from the installed one for the word `f`. */
  function Wanted(t: Term, f: Flags, op: Ioctl): Term {
    match op
    case SetP(sg) => Term(WithFlags(t.modes, f), Speed(sg.ispeed), Speed(sg.ospeed), sg.erase, sg.kill)
    case SetN(sg) => Term(WithFlags(t.modes, f), Speed(sg.ispeed), Speed(sg.ospeed), sg.erase, sg.kill)
    case _ => t.(modes := WithLocal(t.modes, f))
  }

  function Step(s: State, op: Ioctl, dev: Dev): (State, int) {
    if op.Hpcl? then (s.(term := s.term.(modes := s.term.modes.(cflag := s.term.modes.cflag + {HUPCL}))), 0)
    else
      var f := Requested(Word(s.term.modes, s.cached), op);
      var t := Wanted(s.term, f, op);
      var error := InstallError(t, op.SetP?, dev);
      (State(if error == 0 then Install(s.term, t, op.SetP?) else s.term, f), error)
  }

  // ---- what old programs see of it ------------------------------------------------------------

  /** All that TIOCGETP and TIOCLGET report. */
  datatype Seen = Seen(word: Flags, ispeed: int, ospeed: int, erase: byte, kill: byte)

  function Observe(s: State): Seen {
    Seen(Word(s.term.modes, s.cached),
         if s.term.ispeed == 0 then Code(s.term.ospeed) else Code(s.term.ispeed), Code(s.term.ospeed),
         s.term.erase, s.term.kill)
  }

  /** The same ioctl on what can be seen alone.  A failed one changes nothing,
      except that a raw terminal reports the LITOUT and PASS8 asked for. */
  function Next(o: Seen, op: Ioctl, dev: Dev): Seen {
    var f := Requested(o.word, op);
    if op.Hpcl? then o.(word := o.word - {NOHANG})
    else if (op.SetP? && dev.wait != 0) || dev.param != 0 then o.(word := NextFailed(o.word, f))
    else if op.SetP? || op.SetN? then
      Seen(NextLow(o.word, f, op.SetP?),
           Code(if Speed(op.sg.ispeed) == 0 then Speed(op.sg.ospeed) else Speed(op.sg.ispeed)),
           Code(Speed(op.sg.ospeed)), op.sg.erase, op.sg.kill)
    else o.(word := NextLocal(o.word, f))
  }

  function NextFailed(w: Flags, f: Flags): Flags {
    if RAW in w then w - {LITOUT, PASS8} + f * {LITOUT, PASS8} else w
  }

  lemma RequestedBits(w: Flags, op: Ioctl)
    ensures var f := Requested(w, op);
      && (op.SetP? || op.SetN? ==> (LITOUT in f <==> LITOUT in w) && (PASS8 in f <==> PASS8 in w))
      && (op.LSet? || op.LBis? || op.LBic? ==> (RAW in f <==> RAW in w))
  {
  }

  lemma RawBit(t: Modes, cached: Flags)
    ensures RAW in Word(t, cached) <==> IsRaw(t)
  {
  }

  lemma FailedStep(t: Modes, cached: Flags, f: Flags)
    ensures Word(t, f) == NextFailed(Word(t, cached), f)
  {
    RawBit(t, cached);
    forall b ensures b in Word(t, f) <==> b in NextFailed(Word(t, cached), f) {
    }
  }

  lemma HpclStep(t: Modes, cached: Flags)
    ensures Word(t.(cflag := t.cflag + {HUPCL}), cached) == Word(t, cached) - {NOHANG}
  {
    var c, u := t.cflag + {HUPCL}, t.(cflag := t.cflag + {HUPCL});
    assert forall b :: b != HUPCL ==> (b in c <==> b in t.cflag);
    forall b ensures b in Word(u, cached) <==> b in Word(t, cached) - {NOHANG} {
    }
  }

  lemma ControlKept(t: Modes, f: Flags)
    requires CIGNORE !in t.cflag
    ensures CIGNORE !in WithFlags(t, f).cflag && CIGNORE !in WithLocal(t, f).cflag
  {
    hide FlagsC, LocalC;
    FlagsCBits(t.cflag, f);
    LocalCBits(t.cflag, f);
  }

  /** One ioctl on the real representation is one step of the visible machine. */
  lemma StepRefines(s: State, op: Ioctl, dev: Dev)
    requires CIGNORE !in s.term.modes.cflag
    ensures Observe(Step(s, op, dev).0) == Next(Observe(s), op, dev)
    ensures CIGNORE !in Step(s, op, dev).0.term.modes.cflag
  {
    hide Word, WithFlags, WithLocal, Code, Speed, Requested, NextLow, NextLocal, NextFailed, InstalledL;
    var t := s.term.modes;
    var f := Requested(Word(t, s.cached), op);
    RequestedBits(Word(t, s.cached), op);
    RawBit(t, s.cached);
    ControlKept(t, f);
    FailedStep(t, s.cached, f);
    HpclStep(t, s.cached);
    if op.SetP? || op.SetN? {
      LowStep(t, s.cached, f, op.SetP?);
    } else if !op.Hpcl? {
      LocalStep(t, s.cached, f, false);
    }
  }

  // ---- any run of ioctls ------------------------------------------------------------------------

  function Run(s: State, ops: seq<(Ioctl, Dev)>): State
    decreases ops
  {
    if ops == [] then s else Run(Step(s, ops[0].0, ops[0].1).0, ops[1..])
  }

  function RunSeen(o: Seen, ops: seq<(Ioctl, Dev)>): Seen
    decreases ops
  {
    if ops == [] then o else RunSeen(Next(o, ops[0].0, ops[0].1), ops[1..])
  }

  /** Whatever ioctls are made and whichever fail, what a program sees depends
      only on what it saw before and what it asked for. */
  lemma {:induction false} RunRefines(s: State, ops: seq<(Ioctl, Dev)>)
    requires CIGNORE !in s.term.modes.cflag
    ensures Observe(Run(s, ops)) == RunSeen(Observe(s), ops)
    decreases ops
  {
    hide Step, Next, Observe;
    if ops != [] {
      StepRefines(s, ops[0].0, ops[0].1);
      RunRefines(Step(s, ops[0].0, ops[0].1).0, ops[1..]);
    }
  }

  // ---- what the visible machine promises ---------------------------------------------------------

  /** A local-mode ioctl leaves the low half alone, and TIOCLGET gives the word
      asked for in canonical form if and only if no input is pending unasked for:
      pending input cannot be cleared. */
  lemma LocalReadsBackIff(w: Flags, f: Flags)
    ensures Half0(NextLocal(w, f)) == Half0(w)
    ensures Half1(NextLocal(w, f)) == CanonLocal(f) <==> (PENDIN in w ==> PENDIN in f)
  {
    var n := NextLocal(w, f);
    assert PENDIN in Half1(n) <==> PENDIN in f || PENDIN in w;
    assert PENDIN in CanonLocal(f) <==> PENDIN in f;
  }

  /** TIOCSETP and TIOCSETN: the low half reads back in canonical form. */
  lemma LowReadsBack(w: Flags, f: Flags, flush: bool)
    ensures Half0(NextLow(w, f, flush)) == CanonLow(f)
  {
    forall b ensures b in Half0(NextLow(w, f, flush)) <==> b in CanonLow(f) {
      InCanonLow(f, b);
    }
  }

  /** Every bit of a reported word is one a terminal can hold. */
  lemma ReportedIsCanonical(t: Modes, cached: Flags)
    ensures var w := Word(t, cached);
      CanonLow(w) == Half0(w) && CanonLocal(w) == Half1(w)
  {
    var w := Word(t, cached);
    RawBit(t, cached);
    forall b ensures b in CanonLow(w) <==> b in Half0(w) {
    }
    forall b ensures b in CanonLocal(w) <==> b in Half1(w) {
    }
  }

  lemma Halves(t: Modes, cached: Flags)
    ensures var w := Word(t, cached); Half0(w) + Half1(w) == w
  {
  }

  /** Setting the local word just read changes nothing; setting the low word just
      read changes nothing if and only if a raw terminal has DECCTQ on. */
  lemma GetThenSet(t: Modes, cached: Flags, flush: bool)
    ensures var w := Word(t, cached);
      && NextLocal(w, w) == w
      && (NextLow(w, w, flush) == w <==> (RAW in w ==> DECCTQ in w))
  {
    hide Word, CanonLow, CanonLocal;
    ReportedIsCanonical(t, cached);
    Halves(t, cached);
  }

  lemma EightKept(o: Seen, op: Ioctl, dev: Dev)
    requires op.SetP? || op.SetN?
    ensures var r := Next(o, op, dev).word;
            (LITOUT in r <==> LITOUT in o.word) && (PASS8 in r <==> PASS8 in o.word)
  {
    hide Requested, Code, Speed;
    RequestedBits(o.word, op);
  }

  /** LITOUT and PASS8 survive any run of TIOCSETP and TIOCSETN, into raw mode
      and back, whichever of them fail. */
  lemma {:induction false} EightSurvives(o: Seen, ops: seq<(Ioctl, Dev)>)
    requires forall i :: 0 <= i < |ops| ==> ops[i].0.SetP? || ops[i].0.SetN?
    ensures var r := RunSeen(o, ops).word;
            (LITOUT in r <==> LITOUT in o.word) && (PASS8 in r <==> PASS8 in o.word)
    decreases ops
  {
    hide Next;
    if ops != [] {
      EightKept(o, ops[0].0, ops[0].1);
      assert forall i :: 0 <= i < |ops[1..]| ==> ops[1..][i] == ops[i + 1];
      EightSurvives(Next(o, ops[0].0, ops[0].1), ops[1..]);
    }
  }

  // ---- ioctl by ioctl, bit by bit, from what the program passes --------------------------

  /** Only a wait for output or the driver makes a setting ioctl fail. */
  lemma ErrorIs(s: State, op: Ioctl, dev: Dev)
    requires CIGNORE !in s.term.modes.cflag
    ensures Step(s, op, dev).1 ==
            if op.Hpcl? then 0 else if op.SetP? && dev.wait != 0 then dev.wait else dev.param
    ensures Step(s, op, dev).1 != 0 ==> Step(s, op, dev).0.term == s.term
  {
    hide Requested, Speed, Word, WithFlags, WithLocal, Installed;
    ControlKept(s.term.modes, Requested(Word(s.term.modes, s.cached), op));
  }

  /** After a local-mode ioctl that succeeds: bit 16 is CRTBS, 18 CRTERA, 26 CRTKIL,
      19 and 25 are not kept, and 29 is PENDIN. */
  ghost predicate LocalResult(w: Flags, u: Flags, asked: Flags) {
    && (forall b :: b < 16 ==> (b in u <==> b in w))
    && (forall b :: 16 <= b < 32 && b !in {16, 19, 25, 29} ==> (b in u <==> b in asked))
    && (16 in u <==> 18 in asked || 26 in asked) && 19 !in u && 25 !in u
    && (29 in u <==> 29 in w || 29 in asked)
  }

  lemma LocalSucceeds(s: State, op: Ioctl, dev: Dev)
    requires CIGNORE !in s.term.modes.cflag && Step(s, op, dev).1 == 0 && (op.LSet? || op.LBis? || op.LBic?)
    ensures Observe(Step(s, op, dev).0).word == NextLocal(Observe(s).word, Requested(Observe(s).word, op))
  {
    hide Requested, Code, Speed, Word, WithFlags, WithLocal, NextLow, NextLocal, Installed;
    ErrorIs(s, op, dev);
    StepRefines(s, op, dev);
  }

  lemma LocalBits(t: Modes, cached: Flags, f: Flags)
    ensures LocalResult(Word(t, cached), NextLocal(Word(t, cached), f), f)
  {
    hide Word, CanonLocal;
    WordRange(t, cached);
    forall b ensures b in CanonLocal(f) ==> 16 <= b < 32 {
      InCanonLocal(f, b);
    }
    forall b | 16 <= b < 32
      ensures b in CanonLocal(f) <==>
              (b != TILDE && b != L001000 && if b == CRTBS then CRTERA in f || CRTKIL in f else b in f)
    {
      InCanonLocal(f, b);
    }
  }

  lemma WordRange(t: Modes, cached: Flags)
    ensures forall b :: b in Word(t, cached) ==> 0 <= b < 32
  {
  }

  /** TIOCLSET: the local word becomes the argument. */
  lemma LSetBits(s: State, op: Ioctl, dev: Dev)
    requires CIGNORE !in s.term.modes.cflag && op.LSet? && Step(s, op, dev).1 == 0
    ensures var w, u := Observe(s).word, Observe(Step(s, op, dev).0).word;
      && (forall b :: b < 16 ==> (b in u <==> b in w))
      && (forall b :: 16 <= b < 32 && b !in {16, 19, 25, 29} ==> (b in u <==> b - 16 in op.data))
      && (16 in u <==> 2 in op.data || 10 in op.data) && 19 !in u && 25 !in u
      && (29 in u <==> 29 in w || 13 in op.data)
  {
    hide Step, Word, NextLocal;
    var w := Observe(s).word;
    LocalSucceeds(s, op, dev);
    LocalBits(s.term.modes, s.cached, Requested(w, op));
    RequestedLocal(w, op);
  }

  /** TIOCLBIS: the bits of the argument are added. */
  lemma LBisBits(s: State, op: Ioctl, dev: Dev)
    requires CIGNORE !in s.term.modes.cflag && op.LBis? && Step(s, op, dev).1 == 0
    ensures var w, u := Observe(s).word, Observe(Step(s, op, dev).0).word;
      && (forall b :: b < 16 ==> (b in u <==> b in w))
      && (forall b :: 16 <= b < 32 && b !in {16, 19, 25, 29} ==> (b in u <==> b in w || b - 16 in op.data))
      && (16 in u <==> 18 in w || 26 in w || 2 in op.data || 10 in op.data) && 19 !in u && 25 !in u
      && (29 in u <==> 29 in w || 13 in op.data)
  {
    hide Step, Word, NextLocal;
    var w := Observe(s).word;
    LocalSucceeds(s, op, dev);
    LocalBits(s.term.modes, s.cached, Requested(w, op));
    RequestedLocal(w, op);
  }

  /** TIOCLBIC: the bits of the argument are taken away, but for PENDIN. */
  lemma LBicBits(s: State, op: Ioctl, dev: Dev)
    requires CIGNORE !in s.term.modes.cflag && op.LBic? && Step(s, op, dev).1 == 0
    ensures var w, u := Observe(s).word, Observe(Step(s, op, dev).0).word;
      && (forall b :: b < 16 ==> (b in u <==> b in w))
      && (forall b :: 16 <= b < 32 && b !in {16, 19, 25, 29} ==> (b in u <==> b in w && b - 16 !in op.data))
      && (16 in u <==> (18 in w && 2 !in op.data) || (26 in w && 10 !in op.data)) && 19 !in u && 25 !in u
      && (29 in u <==> 29 in w)
  {
    hide Step, Word, NextLocal;
    var w := Observe(s).word;
    LocalSucceeds(s, op, dev);
    LocalBits(s.term.modes, s.cached, Requested(w, op));
    RequestedLocal(w, op);
  }

  lemma RequestedLocal(w: Flags, op: Ioctl)
    ensures op.LSet? ==> forall b :: 16 <= b < 32 ==> (b in Requested(w, op) <==> b - 16 in op.data)
    ensures op.LBis? ==> forall b :: 16 <= b < 32 ==> (b in Requested(w, op) <==> b in w || b - 16 in op.data)
    ensures op.LBic? ==> forall b :: 16 <= b < 32 ==> (b in Requested(w, op) <==> b in w && b - 16 !in op.data)
  {
    forall b | 16 <= b < 32 && (op.LSet? || op.LBis? || op.LBic?) ensures b in Shl16(op.data) <==> b - 16 in op.data {
      if b - 16 in op.data { assert (b - 16) + 16 in Shl16(op.data); }
    }
  }

  /** TIOCSETP and TIOCSETN: the low word becomes sg_flags, with bit 5, RAW, taking
      the place of 1, 6 and 7, CBREAK, ODDP and EVENP, and 10 and 11, XTABS, as one;
      the local word stays, but RAW sets 30, DECCTQ, and leaving raw or cbreak mode
      without a flush sets 29, PENDIN.  Characters and speeds are reported as set. */
  lemma SetBits(s: State, op: Ioctl, dev: Dev)
    requires CIGNORE !in s.term.modes.cflag && (op.SetP? || op.SetN?) && Step(s, op, dev).1 == 0
    ensures var o, r := Observe(s), Observe(Step(s, op, dev).0);
      var g, w, u := op.sg.flags, o.word, r.word;
      && (forall b :: b in {0, 3, 4, 5} ==> (b in u <==> b in g))
      && (forall b :: b in {1, 6, 7} ==> (b in u <==> b in g && 5 !in g))
      && (forall b :: b in {10, 11} ==> (b in u <==> 10 in g || 11 in g))
      && (forall b :: b in {2, 8, 9, 12, 13, 14, 15} ==> b !in u)
      && (forall b :: 16 <= b < 32 && b != 29 && b != 30 ==> (b in u <==> b in w))
      && (30 in u <==> 30 in w || 5 in g)
      && (29 in u <==> 29 in w || (op.SetN? && (5 in w || 1 in w) && 5 !in g && 1 !in g))
      && r.erase == op.sg.erase && r.kill == op.sg.kill
      && (0 <= op.sg.ospeed <= 17 ==> r.ospeed == op.sg.ospeed)
      && (0 < op.sg.ispeed <= 17 ==> r.ispeed == op.sg.ispeed)
      && (op.sg.ispeed == 0 ==> r.ispeed == r.ospeed)
      && var t := Step(s, op, dev).0.term;
      && (op.sg.ospeed < 0 || op.sg.ospeed > 17 ==> t.ospeed == op.sg.ospeed)
      && (op.sg.ispeed < 0 || op.sg.ispeed > 17 ==> t.ispeed == op.sg.ispeed)
  {
    hide Requested, Word, WithFlags, WithLocal, NextLow, NextLocal, Installed, Code;
    var o := Observe(s);
    var f := Requested(o.word, op);
    ErrorIs(s, op, dev);
    StepRefines(s, op, dev);
    LowResult(o.word, f, op.SetP?);
    RequestedLow(o.word, op);
    SpeedsSet(op.sg);
    ControlKept(s.term.modes, f);
  }

  /** TIOCHPCL: bit 24, NOHANG, goes, and nothing else. */
  lemma HpclBits(s: State, dev: Dev)
    ensures var o, r := Observe(s), Observe(Step(s, Hpcl, dev).0);
      r == o.(word := r.word) && 24 !in r.word && forall b :: b != 24 ==> (b in r.word <==> b in o.word)
  {
    hide Word, Code;
    HpclStep(s.term.modes, s.cached);
  }

  lemma LowResult(w: Flags, f: Flags, flush: bool)
    ensures var u := NextLow(w, f, flush);
      && (forall b :: b in {0, 3, 4, 5} ==> (b in u <==> b in f))
      && (forall b :: b in {1, 6, 7} ==> (b in u <==> b in f && 5 !in f))
      && (forall b :: b in {10, 11} ==> (b in u <==> 10 in f || 11 in f))
      && (forall b :: b in {2, 8, 9, 12, 13, 14, 15} ==> b !in u)
      && (forall b :: 16 <= b < 32 && b != 29 && b != 30 ==> (b in u <==> b in w))
      && (30 in u <==> 30 in w || 5 in f)
      && (29 in u <==> 29 in w || (!flush && (5 in w || 1 in w) && 5 !in f && 1 !in f))
  {
  }

  lemma RequestedLow(w: Flags, op: Ioctl)
    requires op.SetP? || op.SetN?
    ensures forall b :: 0 <= b < 16 ==> (b in Requested(w, op) <==> b in op.sg.flags)
  {
  }

  lemma SpeedsSet(sg: Sgttyb)
    ensures 0 <= sg.ospeed <= 17 ==> Code(Speed(sg.ospeed)) == sg.ospeed
    ensures 0 <= sg.ispeed <= 17 ==> Code(Speed(sg.ispeed)) == sg.ispeed && (Speed(sg.ispeed) == 0 <==> sg.ispeed == 0)
  {
    hide Code;
    if 0 <= sg.ospeed <= 17 { SpeedReadsBack(sg.ospeed); }
    if 0 <= sg.ispeed <= 17 {
      SpeedReadsBack(sg.ispeed);
      SpeedReadsBack(0);
    }
  }

  /** An ioctl that fails, waiting for output or in the driver, changes what is
      reported if and only if the terminal is raw and LITOUT or PASS8 was to change. */
  lemma FailureVisibleIff(s: State, op: Ioctl, dev: Dev)
    requires CIGNORE !in s.term.modes.cflag && Step(s, op, dev).1 != 0
    ensures var o := Observe(s);
            var f := Requested(o.word, op);
            Observe(Step(s, op, dev).0) != o <==>
            RAW in o.word && ((LITOUT in f) != (LITOUT in o.word) || (PASS8 in f) != (PASS8 in o.word))
  {
    hide Requested, Code, Speed, Word, WithFlags, WithLocal, NextLow, NextLocal, Installed;
    var o := Observe(s);
    var f := Requested(o.word, op);
    ControlKept(s.term.modes, f);
    StepRefines(s, op, dev);
    assert Next(o, op, dev) == o.(word := NextFailed(o.word, f));
    NextFailedChanges(o.word, f);
  }

  lemma NextFailedChanges(w: Flags, f: Flags)
    ensures NextFailed(w, f) != w <==> RAW in w && ((LITOUT in f) != (LITOUT in w) || (PASS8 in f) != (PASS8 in w))
  {
    if RAW in w && (LITOUT in f) == (LITOUT in w) && (PASS8 in f) == (PASS8 in w) {
      assert NextFailed(w, f) == w;
    }
  }
}
