/** compat_43_sys_lstat: the attributes of a symbolic link are those of its
    directory, so both vnodes are looked up, locked, and let go again. */
module Lstat43 {
  import opened Kernel

  // Bits of st_mode: the file type is in bits 12..15
  const IFMT: set<nat> := {12, 13, 14, 15}
  const S_IFDIR: set<nat> := {14}
  const S_IFLNK: set<nat> := {13, 15}

  /** struct stat; `rest` stands for the fields always taken from one vnode. */
  datatype Stat = Stat(mode: set<nat>, nlink: nat, size: int, blocks: int, rest: int)

  /** What vn_stat says: an error or the attributes. */
  datatype Attr = NoAttr(error: int) | Attr(sb: Stat)

  /** A vnode, as far as lstat cares. */
  class Inode {
    const isLink: bool
    const attr: Attr
    var usecount: nat
    var locked: bool

    constructor (isLink: bool, attr: Attr)
      ensures this.isLink == isLink && this.attr == attr && usecount == 1 && !locked
    {
      this.isLink, this.attr, usecount, locked := isLink, attr, 1, false;
    }

    method Vrele()
      requires usecount > 0
      modifies `usecount
      ensures usecount == old(usecount) - 1
    {
      usecount := usecount - 1;
    }

    method Vput()
      requires usecount > 0 && locked
      modifies `usecount, `locked
      ensures usecount == old(usecount) - 1 && !locked
    {
      locked := false;
      Vrele();
    }

    /** VOP_GETATTR wants the vnode held and locked. */
    method VnStat() returns (a: Attr)
      requires usecount > 0 && locked
      ensures a == attr
    {
      a := attr;
    }
  }

  /** What a path names: an error, or the vnode and the directory it was found
      in, if there is one to return. */
  datatype Lookup = Failed(error: int) | Found(vp: Inode, dvp: Inode?)

  ghost function Inodes(l: Lookup): set<Inode> {
    if l.Failed? then {} else if l.dvp == null then {l.vp} else {l.vp, l.dvp}
  }

  /** Lookups that namei can come back with: errors are not zero, only "." is its
      own directory, attribute errors are not zero. */
  ghost predicate Sensible(l: Lookup) {
    && (l.Failed? ==> l.error != 0)
    && (l.Found? && l.vp.isLink ==> l.dvp != l.vp)
    && forall v :: v in Inodes(l) && v.attr.NoAttr? ==> v.attr.error != 0
  }

  /** namei with LOCKLEAF, and with LOCKPARENT or not: each vnode returned is
      held once, twice if it is both, and locked. */
  method Namei(l: Lookup, lockParent: bool) returns (error: int, vp: Inode?, dvp: Inode?)
    requires Sensible(l) && forall v :: v in Inodes(l) ==> !v.locked
    modifies Inodes(l)
    ensures l.Failed? ==> error == l.error && vp == null && dvp == null
    ensures l.Found? ==> error == 0 && vp == l.vp && dvp == if lockParent then l.dvp else null
    ensures forall v :: v in Inodes(l) ==>
      && v.usecount == old(v.usecount) + Held(v, vp, dvp)
      && v.locked == (v == vp || v == dvp)
  {
    error, vp, dvp := 0, null, null;
    if l.Failed? {
      error := l.error;
      return;
    }
    vp := l.vp;
    vp.usecount := vp.usecount + 1;
    vp.locked := true;
    if lockParent && l.dvp != null {
      dvp := l.dvp;
      dvp.usecount := dvp.usecount + 1;
      dvp.locked := true;
    }
  }

  function Held(v: Inode, vp: Inode?, dvp: Inode?): nat {
    (if v == vp then 1 else 0) + if v == dvp then 1 else 0
  }

  /** A symbolic link: everything from the directory, but for the type, the
      links, the size and the blocks. */
  function LinkStat(dir: Stat, link: Stat): Stat {
    Stat(dir.mode - S_IFDIR + S_IFLNK, link.nlink, link.size, link.blocks, dir.rest)
  }

  /** struct stat43 as cvtstat fills it. */
  datatype Stat43 = Stat43(mode: set<nat>, nlink: nat, size: int, blocks: int, rest: int)

  function CvtStat(sb: Stat): Stat43 {
    Stat43((set b | b in sb.mode && b < 16), sb.nlink % 0x1_0000,
           if sb.size < 0x1_0000_0000 then Int32(sb.size) else -2, Int32(sb.blocks), sb.rest)
  }

  /** The call returns, with a structure copied out or not, or needs a directory
      that namei did not return. */
  datatype Outcome = Returned(error: int, st: Option<Stat43>) | NoParent

  /** The lookup that counts: the second, which asks for no directory, if the
      first said EISDIR. */
  function Final(first: Lookup, second: Lookup): Lookup {
    if first == Failed(EISDIR) then (if second.Found? then Found(second.vp, null) else second) else first
  }

  /** The error of the first attributes that cannot be read, of the copy, or none,
      and then a structure, with the links, size and blocks of the second. */
  predicate Reported(r: Outcome, one: Attr, two: Attr, copyError: int) {
    if one.NoAttr? then r == Returned(one.error, None)
    else if two.NoAttr? then r == Returned(two.error, None)
    else if copyError != 0 then r == Returned(copyError, None)
    else
      && r.Returned? && r.error == 0 && r.st.Some?
      && r.st.value.nlink == two.sb.nlink % 0x1_0000 && r.st.value.blocks == Int32(two.sb.blocks)
      && r.st.value.size == (if two.sb.size < 0x1_0000_0000 then Int32(two.sb.size) else -2)
      && r.st.value.rest == one.sb.rest
  }

  predicate ParentMissing(first: Lookup, second: Lookup) {
    if first == Failed(EISDIR) then second.Found? && second.vp.isLink
    else first.Found? && first.dvp == null
  }

  function Answer(l: Lookup): Attr
    requires l.Found? && l.vp.isLink ==> l.dvp != null
  {
    if l.Failed? then NoAttr(l.error)
    else if !l.vp.isLink then l.vp.attr
    else if l.dvp.attr.NoAttr? then l.dvp.attr
    else if l.vp.attr.NoAttr? then l.vp.attr
    else Attr.Attr(LinkStat(l.dvp.attr.sb, l.vp.attr.sb))
  }

  /** The two branches on the vnode's type: the attributes are read while their
      vnode is held and locked, and every hold and lock is given up. */
  method Gather(vp: Inode, dvp: Inode?, lockParent: bool) returns (a: Attr)
    requires vp.locked && vp.usecount >= Held(vp, vp, dvp)
    requires dvp != null ==> lockParent && dvp.locked && dvp.usecount >= Held(dvp, vp, dvp)
    requires if vp.isLink then dvp != null && dvp != vp else lockParent ==> dvp != null
    modifies vp, dvp
    ensures a == Answer(Found(vp, dvp))
    ensures vp.usecount == old(vp.usecount) - Held(vp, vp, dvp) && !vp.locked
    ensures dvp != null ==> dvp.usecount == old(dvp.usecount) - Held(dvp, vp, dvp) && !dvp.locked
  {
    if !vp.isLink {
      if lockParent {
        if dvp == vp { dvp.Vrele(); } else { dvp.Vput(); }
      }
      a := vp.VnStat();
      vp.Vput();
    } else {
      a := dvp.VnStat();
      dvp.Vput();
      if a.NoAttr? {
        vp.Vput();
      } else {
        var link := vp.VnStat();
        vp.Vput();
        a := if link.NoAttr? then link else Attr.Attr(LinkStat(a.sb, link.sb));
      }
    }
  }

  function Result(l: Lookup, copyError: int): Outcome
    requires l.Found? && l.vp.isLink ==> l.dvp != null
  {
    match Answer(l)
    case NoAttr(e) => Returned(e, None)
    case Attr(sb) => Returned(copyError, if copyError == 0 then Some(CvtStat(sb)) else None)
  }

  /** What the result is, field by field. */
  lemma Fields(first: Lookup, second: Lookup, copyError: int, r: Outcome)
    requires ParentMissing(first, second) <==> r.NoParent?
    requires r.Returned? ==> r == Result(Final(first, second), copyError)
    // errors of the lookups, EISDIR being the one that is tried again
    ensures first.Failed? && first.error != 21 ==> r == Returned(first.error, None)
    ensures first.Failed? && first.error == 21 && second.Failed? ==> r == Returned(second.error, None)
    // a vnode that is not a link: everything is its own
    ensures first.Found? && first.dvp != null && !first.vp.isLink ==> Reported(r, first.vp.attr, first.vp.attr, copyError)
    ensures first.Failed? && first.error == 21 && second.Found? && !second.vp.isLink ==>
      Reported(r, second.vp.attr, second.vp.attr, copyError)
    // a link: its own links, size and blocks, the rest from the directory
    ensures first.Found? && first.dvp != null && first.vp.isLink ==> Reported(r, first.dvp.attr, first.vp.attr, copyError)
    ensures r.Returned? && r.st.Some? ==>
      var l := if first.Found? then first else second;
      && l.Found? && l.vp.attr.Attr? && (l.vp.isLink ==> l.dvp != null && l.dvp.attr.Attr?)
      && var own := l.vp.attr.sb;
      var other := if l.vp.isLink then l.dvp.attr.sb else own;
      && r.error == copyError == 0
      && r.st.value.nlink == own.nlink % 0x1_0000 && r.st.value.blocks == Int32(own.blocks)
      && r.st.value.size == (if own.size < 0x1_0000_0000 then Int32(own.size) else -2)
      && r.st.value.rest == other.rest
      && (forall b: nat :: b < 12 ==> (b in r.st.value.mode <==> b in other.mode))
      && (forall b: nat :: 12 <= b < 16 ==>
            (b in r.st.value.mode <==>
             if l.vp.isLink then b == 13 || b == 15 || (b == 12 && b in other.mode) else b in own.mode))
  {
  }

  /** On every return each vnode has the references it had and is unlocked; and
      the call returns exactly if the directory it lets go of is there. */
  method Lstat(first: Lookup, second: Lookup, copyError: int) returns (r: Outcome)
    requires Sensible(first) && Sensible(second)
    requires forall v :: v in Inodes(first) + Inodes(second) ==> !v.locked
    modifies Inodes(first) + Inodes(second)
    ensures r.NoParent? <==> ParentMissing(first, second)
    // so for the root, where lookup() succeeds and has no directory to return
    ensures first.Found? && first.dvp == null ==> r.NoParent?
    ensures r.Returned? ==> forall v :: v in Inodes(first) + Inodes(second) ==>
      v.usecount == old(v.usecount) && !v.locked
    // errors of the lookups, EISDIR being the one that is tried again
    ensures first.Failed? && first.error != 21 ==> r == Returned(first.error, None)
    ensures first.Failed? && first.error == 21 && second.Failed? ==> r == Returned(second.error, None)
    // a vnode that is not a link: everything is its own
    ensures first.Found? && first.dvp != null && !first.vp.isLink ==> Reported(r, first.vp.attr, first.vp.attr, copyError)
    ensures first.Failed? && first.error == 21 && second.Found? && !second.vp.isLink ==>
      Reported(r, second.vp.attr, second.vp.attr, copyError)
    // a link: its own links, size and blocks, the rest from the directory
    ensures first.Found? && first.dvp != null && first.vp.isLink ==> Reported(r, first.dvp.attr, first.vp.attr, copyError)
    ensures r.Returned? && r.st.Some? ==>
      var l := if first.Found? then first else second;
      && l.Found? && l.vp.attr.Attr? && (l.vp.isLink ==> l.dvp != null && l.dvp.attr.Attr?)
      && var own := l.vp.attr.sb;
      var other := if l.vp.isLink then l.dvp.attr.sb else own;
      && r.error == copyError == 0
      && r.st.value.nlink == own.nlink % 0x1_0000 && r.st.value.blocks == Int32(own.blocks)
      && r.st.value.size == (if own.size < 0x1_0000_0000 then Int32(own.size) else -2)
      && r.st.value.rest == other.rest
      && (forall b: nat :: b < 12 ==> (b in r.st.value.mode <==> b in other.mode))
      && (forall b: nat :: 12 <= b < 16 ==>
            (b in r.st.value.mode <==>
             if l.vp.isLink then b == 13 || b == 15 || (b == 12 && b in other.mode) else b in own.mode))
    ensures r.Returned? ==> r == Result(Final(first, second), copyError)
  {
    hide Reported, Int32, CvtStat, Answer, LinkStat, Result;
    var lockParent := true;
    var error, vp, dvp := Namei(first, lockParent);
    while error == EISDIR && lockParent
      invariant error != 0 ==> vp == null
      invariant lockParent ==> (error, vp, dvp) == if first.Failed? then (first.error, null, null) else (0, first.vp, first.dvp)
      invariant !lockParent ==> first == Failed(EISDIR) && dvp == null
      invariant !lockParent ==> if second.Failed? then error == second.error else error == 0 && vp == second.vp
      invariant forall v :: v in Inodes(first) + Inodes(second) ==>
        && v.usecount == old(v.usecount) + Held(v, vp, dvp)
        && v.locked == (v == vp || v == dvp)
      decreases lockParent
    {
      lockParent := false;
      error, vp, dvp := Namei(second, lockParent);
    }
    if error != 0 {
      FailedResult(Final(first, second), copyError);
      r := Returned(error, None);
    } else if (if vp.isLink then dvp == null else lockParent && dvp == null) {
      r := NoParent;   // either branch of Gather would use the directory
    } else {
      var a := Gather(vp, dvp, lockParent);
      assert Final(first, second) == Found(vp, dvp);
      GoodResult(Found(vp, dvp), copyError);
      r := if a.NoAttr? then Returned(a.error, None)
           else Returned(copyError, if copyError == 0 then Some(CvtStat(a.sb)) else None);
    }
    Fields(first, second, copyError, r);
  }

  lemma FailedResult(l: Lookup, copyError: int)
    requires l.Failed?
    ensures Result(l, copyError) == Returned(l.error, None)
  {
  }

  lemma GoodResult(l: Lookup, copyError: int)
    requires l.Found? && (l.vp.isLink ==> l.dvp != null)
    ensures var a := Answer(l);
      Result(l, copyError) == if a.NoAttr? then Returned(a.error, None)
                              else Returned(copyError, if copyError == 0 then Some(CvtStat(a.sb)) else None)
  {
  }

  /** The mode of a link made from its directory's says "symbolic link", exactly
      if the directory's type has no bit but S_IFLNK's and S_IFDIR's own. */
  lemma LinkTypeIff(dir: Stat, link: Stat)
    ensures var st := CvtStat(LinkStat(dir, link));
      && (st.mode * IFMT == S_IFLNK <==> dir.mode * IFMT <= S_IFDIR + S_IFLNK)
      && (forall b :: b < 12 ==> (b in st.mode <==> b in dir.mode))
  {
    var st := CvtStat(LinkStat(dir, link));
    assert 12 in st.mode * IFMT <==> 12 in dir.mode;
    if 12 !in dir.mode {
      assert st.mode * IFMT == S_IFLNK;
    }
  }
}
