/** ttcompat and its helpers as they run: a terminal updated in place. */
module TtyDriver {
  import opened Tty43

  /** The bits of a reported word, one by one. */
  lemma WordBits(t: Modes, cached: Flags)
    ensures var w := Word(t, cached);
      && (TANDEM in w <==> IXOFF in t.iflag) && (ECHO in w <==> ECHO in t.lflag)
      && (CRMOD in w <==> ICRNL in t.iflag || ONLCR in t.oflag)
      && (RAW in w <==> ICANON !in t.lflag && IXON !in t.iflag && ISIG !in t.lflag && IEXTEN !in t.lflag &&
                        PARENB !in t.cflag)
      && (RAW in w <==> IsRaw(t)) && (CBREAK in w <==> ICANON !in t.lflag && RAW !in w)
      && (ODDP in w <==> PARENB in t.cflag && (INPCK !in t.iflag || PARODD in t.cflag))
      && (EVENP in w <==> PARENB in t.cflag && (INPCK !in t.iflag || PARODD !in t.cflag))
      && (XTAB0 in w <==> OXTABS in t.oflag) && (XTAB1 in w <==> OXTABS in t.oflag)
      && (LITOUT in w <==> if RAW in w then LITOUT in cached
                           else CSIZE0 in t.cflag && CSIZE1 in t.cflag && OPOST !in t.oflag)
      && (PASS8 in w <==> if RAW in w then PASS8 in cached
                          else CSIZE0 in t.cflag && CSIZE1 in t.cflag && ISTRIP !in t.iflag)
      && (MDMBUF in w <==> MDMBUF in t.cflag) && (NOHANG in w <==> HUPCL !in t.cflag)
      && (CRTERA in w <==> ECHOE in t.lflag) && (CRTKIL in w <==> ECHOKE in t.lflag)
      && (CRTBS in w <==> ECHOE in t.lflag || ECHOKE in t.lflag)
      && (PRTERA in w <==> ECHOPRT in t.lflag) && (CTLECH in w <==> ECHOCTL in t.lflag)
      && (DECCTQ in w <==> IXANY !in t.iflag)
      && (TOSTOP in w <==> TOSTOP in t.lflag) && (FLUSHO in w <==> FLUSHO in t.lflag)
      && (PENDIN in w <==> PENDIN in t.lflag) && (NOFLSH in w <==> NOFLSH in t.lflag)
  {
  }

  lemma WordWithin(t: Modes, cached: Flags)
    ensures forall b :: b in Word(t, cached) ==>
      b in {TANDEM, CRMOD, ODDP, EVENP, CBREAK, RAW} || b in {LITOUT, PASS8, MDMBUF, NOHANG, XTAB0, XTAB1} ||
      b in {CRTERA, CRTKIL, CRTBS, PRTERA, CTLECH, DECCTQ, ECHO, TOSTOP, FLUSHO, PENDIN, NOFLSH}
  {
  }

  lemma SpeedInTable(speed: int)
    ensures Lookup(SPEEDTAB, speed) == -1 <==> forall i :: 0 <= i < |SPEEDTAB| ==> SPEEDTAB[i].0 != speed
  {
    forall i | 0 <= i < |SPEEDTAB| ensures SPEEDTAB[i].1 != -1 { Entry(i); }
    LookupIff(SPEEDTAB, speed);
  }

  class Tty {
    var term: Term     // t_termios
    var cached: Flags  // t_flags

    ghost function Snapshot(): State
      reads this
    {
      State(term, cached)
    }

    constructor (term: Term)
      ensures this.term == term && cached == {}
    {
      this.term, cached := term, {};
    }

    /** ttcompatgetflags: input processing, parity and canonical mode. */
    method GetInput() returns (flags: Flags)
      ensures flags == Word(term.modes, cached) * {TANDEM, CRMOD, ODDP, EVENP, CBREAK, RAW}
    {
      hide Word, EightBit;
      WordBits(term.modes, cached);
      var iflag, oflag, lflag, cflag := term.modes.iflag, term.modes.oflag, term.modes.lflag, term.modes.cflag;
      flags := {};
      if IXOFF in iflag { flags := flags + {TANDEM}; }
      if ICRNL in iflag || ONLCR in oflag { flags := flags + {CRMOD}; }
      if PARENB in cflag {
        if INPCK in iflag {
          if PARODD in cflag { flags := flags + {ODDP}; } else { flags := flags + {EVENP}; }
        } else {
          flags := flags + {ODDP, EVENP};
        }
      }
      if ICANON !in lflag {
        if IXON in iflag || ISIG in lflag || IEXTEN in lflag || PARENB in cflag {
          flags := flags + {CBREAK};
        } else {
          flags := flags + {RAW};
        }
      }
    }

    /** ttcompatgetflags: the eight-bit modes and the hardware. */
    method GetOutput(low: Flags) returns (flags: Flags)
      requires RAW in low <==> IsRaw(term.modes)
      ensures flags == low + Word(term.modes, cached) * {LITOUT, PASS8, MDMBUF, NOHANG, XTAB0, XTAB1}
    {
      hide Word, IsRaw;
      WordBits(term.modes, cached);
      var iflag, oflag, cflag := term.modes.iflag, term.modes.oflag, term.modes.cflag;
      flags := low;
      if RAW in flags {
        flags := flags + cached * {LITOUT, PASS8};
      } else if Is8(cflag) {
        if OPOST !in oflag { flags := flags + {LITOUT}; }
        if ISTRIP !in iflag { flags := flags + {PASS8}; }
      }
      if MDMBUF in cflag { flags := flags + {MDMBUF}; }
      if HUPCL !in cflag { flags := flags + {NOHANG}; }
      if OXTABS in oflag { flags := flags + {XTAB0, XTAB1}; }
    }

    /** ttcompatgetflags: echo and the bits the two words share. */
    method GetLocal(most: Flags) returns (flags: Flags)
      ensures flags == most + Word(term.modes, cached) * {CRTERA, CRTKIL, CRTBS, PRTERA, CTLECH, DECCTQ,
                                                          ECHO, TOSTOP, FLUSHO, PENDIN, NOFLSH}
    {
      hide Word, IsRaw, EightBit;
      WordBits(term.modes, cached);
      var iflag, lflag := term.modes.iflag, term.modes.lflag;
      flags := most;
      if ECHOE in lflag { flags := flags + {CRTERA, CRTBS}; }
      if ECHOKE in lflag { flags := flags + {CRTKIL, CRTBS}; }
      if ECHOPRT in lflag { flags := flags + {PRTERA}; }
      if ECHOCTL in lflag { flags := flags + {CTLECH}; }
      if IXANY !in iflag { flags := flags + {DECCTQ}; }
      flags := flags + lflag * {ECHO, TOSTOP, FLUSHO, PENDIN, NOFLSH};
    }

    method GetFlags() returns (flags: Flags)
      ensures flags == Word(term.modes, cached)
    {
      hide LowBit, LocalBit;
      RawBit(term.modes, cached);
      flags := GetInput();
      flags := GetOutput(flags);
      flags := GetLocal(flags);
      WordWithin(term.modes, cached);
    }

    /** ttcompatsetflags */
    method SetFlags(t: Modes) returns (r: Modes)
      ensures r == WithFlags(t, cached)
    {
      var flags := cached;
      var iflag, oflag, lflag, cflag := t.iflag, t.oflag, t.lflag, t.cflag;
      if TANDEM in flags { iflag := iflag + {IXOFF}; } else { iflag := iflag - {IXOFF}; }
      if ECHO in flags { lflag := lflag + {ECHO}; } else { lflag := lflag - {ECHO}; }
      if CRMOD in flags {
        iflag := iflag + {ICRNL};
        oflag := oflag + {ONLCR};
      } else {
        iflag := iflag - {ICRNL};
        oflag := oflag - {ONLCR};
      }
      if XTAB0 in flags || XTAB1 in flags { oflag := oflag + {OXTABS}; } else { oflag := oflag - {OXTABS}; }
      if RAW in flags {
        iflag := iflag * {IXOFF};
        lflag := lflag - {ISIG, ICANON, IEXTEN};
        cflag := cflag - {PARENB};
      } else {
        iflag := iflag + {BRKINT, IXON, IMAXBEL};
        lflag := lflag + {ISIG, IEXTEN};
        if CBREAK in flags { lflag := lflag - {ICANON}; } else { lflag := lflag + {ICANON}; }
        if ODDP !in flags && EVENP !in flags {
          cflag := cflag - {PARENB};
        } else if ODDP in flags && EVENP in flags {
          cflag := cflag + {PARENB};
          iflag := iflag - {INPCK};
        } else if EVENP in flags {
          cflag := cflag + {PARENB};
          iflag := iflag + {INPCK};
          cflag := cflag - {PARODD};
        } else {
          cflag := cflag + {PARENB};
          iflag := iflag + {INPCK};
          cflag := cflag + {PARODD};
        }
      }
      if RAW in flags || LITOUT in flags || PASS8 in flags {
        cflag := cflag - {CSIZE0, CSIZE1} + {CSIZE0, CSIZE1};
        if !(RAW in flags || PASS8 in flags) { iflag := iflag + {ISTRIP}; } else { iflag := iflag - {ISTRIP}; }
        if !(RAW in flags || LITOUT in flags) { oflag := oflag + {OPOST}; } else { oflag := oflag - {OPOST}; }
      } else {
        cflag := cflag - {CSIZE0, CSIZE1} + {CSIZE1};
        iflag := iflag + {ISTRIP};
        oflag := oflag + {OPOST};
      }
      r := Modes(iflag, oflag, lflag, cflag);
    }

    /** ttcompatsetlflags */
    method SetLFlags(t: Modes) returns (r: Modes)
      ensures r == WithLocal(t, cached)
    {
      var flags := cached;
      var iflag, oflag, lflag, cflag := t.iflag, t.oflag, t.lflag, t.cflag;
      if PRTERA in flags { lflag := lflag + {ECHOPRT}; } else { lflag := lflag - {ECHOPRT}; }
      if CRTERA in flags { lflag := lflag + {ECHOE}; } else { lflag := lflag - {ECHOE}; }
      if MDMBUF in flags { cflag := cflag + {MDMBUF}; } else { cflag := cflag - {MDMBUF}; }
      if NOHANG in flags { cflag := cflag - {HUPCL}; } else { cflag := cflag + {HUPCL}; }
      if CRTKIL in flags { lflag := lflag + {ECHOKE}; } else { lflag := lflag - {ECHOKE}; }
      if CTLECH in flags { lflag := lflag + {ECHOCTL}; } else { lflag := lflag - {ECHOCTL}; }
      if DECCTQ !in flags { iflag := iflag + {IXANY}; } else { iflag := iflag - {IXANY}; }
      lflag := lflag - {TOSTOP, FLUSHO, PENDIN, NOFLSH};
      lflag := lflag + flags * {TOSTOP, FLUSHO, PENDIN, NOFLSH};
      if RAW in flags || LITOUT in flags || PASS8 in flags {
        cflag := cflag - {CSIZE0, CSIZE1} + {CSIZE0, CSIZE1};
        if !(RAW in flags || PASS8 in flags) { iflag := iflag + {ISTRIP}; } else { iflag := iflag - {ISTRIP}; }
        if !(RAW in flags || LITOUT in flags) { oflag := oflag + {OPOST}; } else { oflag := oflag - {OPOST}; }
      } else {
        cflag := cflag - {CSIZE0, CSIZE1} + {CSIZE1};
        iflag := iflag + {ISTRIP};
        oflag := oflag + {OPOST};
      }
      r := Modes(iflag, oflag, lflag, cflag);
    }

    /** The TIOCSETA and TIOCSETAF cases of ttioctl. */
    method TtIoctl(t: Term, flush: bool, dev: Dev) returns (error: int)
      modifies this`term
      ensures error == InstallError(t, flush, dev)
      ensures term == if error == 0 then Install(old(term), t, flush) else old(term)
    {
      error := 0;
      if flush && dev.wait != 0 { return dev.wait; }
      var m := t.modes;
      if CIGNORE !in m.cflag {
        if dev.param != 0 { return dev.param; }
        term := term.(modes := term.modes.(cflag := m.cflag), ispeed := t.ispeed, ospeed := t.ospeed);
      }
      var lflag := term.modes.lflag;
      if !flush && (ICANON in m.lflag) != (ICANON in lflag) {
        if ICANON in m.lflag { lflag := lflag + {PENDIN}; } else { lflag := lflag - {PENDIN}; }
      }
      var l := m.lflag;
      if EXTPROC in lflag { l := l + {EXTPROC}; } else { l := l - {EXTPROC}; }
      l := l + lflag * {PENDIN};
      assert l == InstalledL(old(term.modes.lflag), m.lflag, flush);
      term := Term(Modes(m.iflag, m.oflag, l, term.modes.cflag), term.ispeed, term.ospeed, t.erase, t.kill);
    }

    /** The TIOCSETP, TIOCSETN, TIOCLSET, TIOCLBIS, TIOCLBIC and TIOCHPCL cases. */
    method Set(op: Ioctl, dev: Dev) returns (error: int)
      modifies this
      ensures (Snapshot(), error) == Step(old(Snapshot()), op, dev)
    {
      var t := term;
      match op {
        case Hpcl =>
          term := t.(modes := t.modes.(cflag := t.modes.cflag + {HUPCL}));
          error := 0;
        case SetP(sg) =>
          error := SetSgttyb(sg, true, dev);
        case SetN(sg) =>
          error := SetSgttyb(sg, false, dev);
        case LSet(data) =>
          var flags := GetFlags();
          cached := Half0(flags) + Shl16(data);
          var m := SetLFlags(t.modes);
          error := TtIoctl(t.(modes := m), false, dev);
        case LBis(data) =>
          var flags := GetFlags();
          cached := flags + Shl16(data);
          var m := SetLFlags(t.modes);
          error := TtIoctl(t.(modes := m), false, dev);
        case LBic(data) =>
          var flags := GetFlags();
          cached := flags - Shl16(data);
          var m := SetLFlags(t.modes);
          error := TtIoctl(t.(modes := m), false, dev);
      }
    }

    method SetSgttyb(sg: Sgttyb, flush: bool, dev: Dev) returns (error: int)
      modifies this
      ensures (Snapshot(), error) == Step(old(Snapshot()), if flush then SetP(sg) else SetN(sg), dev)
    {
      var flags := GetFlags();
      var ispeed := if sg.ispeed > MAX_SPEED || sg.ispeed < 0 then sg.ispeed else SPEEDCODES[sg.ispeed];
      var ospeed := if sg.ospeed > MAX_SPEED || sg.ospeed < 0 then sg.ospeed else SPEEDCODES[sg.ospeed];
      cached := Half1(flags) + Half0(sg.flags);
      var m := SetFlags(term.modes);
      error := TtIoctl(Term(m, ispeed, ospeed, sg.erase, sg.kill), flush, dev);
    }

    /** ttspeedtab on the table above. */
    static method TtSpeedTab(speed: int) returns (code: int)
      ensures code == Lookup(SPEEDTAB, speed)
      ensures code == -1 <==> forall i :: 0 <= i < |SPEEDTAB| ==> SPEEDTAB[i].0 != speed
    {
      SpeedInTable(speed);
      for i := 0 to |SPEEDTAB|
        invariant Lookup(SPEEDTAB, speed) == Lookup(SPEEDTAB[i..], speed)
      {
        if SPEEDTAB[i].0 == speed { return SPEEDTAB[i].1; }
      }
      code := -1;
    }

    /** TIOCGETP; sg_flags is a short. */
    method GetP() returns (sg: Sgttyb)
      ensures var o := Observe(Snapshot());
              sg == Sgttyb(o.ispeed, o.ospeed, o.erase, o.kill, Half0(o.word))
    {
      var speed := TtSpeedTab(term.ospeed);
      var ospeed := if speed == -1 then MAX_SPEED else speed;
      var ispeed := ospeed;
      if term.ispeed != 0 {
        speed := TtSpeedTab(term.ispeed);
        ispeed := if speed == -1 then MAX_SPEED else speed;
      }
      var flags := GetFlags();
      sg := Sgttyb(ispeed, ospeed, term.erase, term.kill, Half0(flags));
    }

    /** TIOCLGET, modulo 2^16. */
    method LGet() returns (data: Flags)
      ensures Shl16(data) == Half1(Observe(Snapshot()).word)
      ensures forall b :: b in data ==> 0 <= b < 16
    {
      var flags := GetFlags();
      data := set b {:trigger b in flags} | b in flags && 16 <= b < 32 :: b - 16;
      forall b ensures b in Shl16(data) <==> b in Half1(flags) {
        if b in Half1(flags) { assert b - 16 in data; }
      }
    }
  }
}
