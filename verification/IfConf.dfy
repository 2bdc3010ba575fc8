/** compat_ifconf as it runs: one loop over interfaces, one over addresses, a
    shared space budget and a cursor in the user's buffer. */
module IfConf {
  import opened Bytes
  import opened Kernel
  import opened IfConfSpec

  /** struct oifconf; the buffer is the user's memory from ifc_req on. */
  class OifConf {
    var len: int32
    const req: array?<byte>

    constructor (len: int32, req: array?<byte>)
      ensures this.len == len && this.req == req
    {
      this.len, this.req := len, req;
    }
  }

  function Room(req: array?<byte>): nat {
    if req == null then 0 else req.Length
  }

  /** The state of the loops: items still to come, ifr_addr, the budget and the
      bytes written. */
  datatype Progress = Progress(todo: seq<Item>, addr: seq<byte>, space: int32, out: seq<byte>)

  /** What will have been written, and the budget, at the end. */
  function Outcome(order: ByteOrder, old43: bool, p: Progress): (seq<byte>, int32)
    requires |p.addr| == SASIZE
  {
    var w := Written(Records(order, old43, p.todo, p.addr), p.space);
    (p.out + w.0, w.1)
  }

  /** One item of the loops. */
  function Advance(order: ByteOrder, old43: bool, p: Progress): (q: Progress)
    requires |p.addr| == SASIZE && p.todo != []
    ensures |q.addr| == SASIZE && q.todo == p.todo[1..]
    ensures !Eligible(old43, p.todo[0]) ==> q == p.(todo := p.todo[1..])
  {
    var it := p.todo[0];
    var addr := NextAddr(order, old43, it, p.addr);
    if !Eligible(old43, it) then Progress(p.todo[1..], addr, p.space, p.out)
    else
      var r := RecordOf(order, old43, it, p.addr);
      var s := Checked(p.space, r);
      Progress(p.todo[1..], addr, Int32(s - SZ), if s >= SZ then p.out + r else p.out)
  }

  lemma WrittenStep(r: seq<byte>, rest: seq<seq<byte>>, space: int32, out: seq<byte>)
    ensures var s := Checked(space, r);
            var w := Written(rest, Int32(s - SZ));
            out + Written([r] + rest, space).0 == (if s >= SZ then out + r else out) + w.0 &&
            Written([r] + rest, space).1 == w.1
  {
    hide Int32, Checked;
    var s := Checked(space, r);
    var w := Written(rest, Int32(s - SZ));
    assert ([r] + rest)[1..] == rest;
    assert out + (r + w.0) == out + r + w.0 && out + ([] + w.0) == out + w.0;
  }

  lemma AdvanceKeepsOutcome(order: ByteOrder, old43: bool, p: Progress)
    requires |p.addr| == SASIZE && p.todo != []
    ensures Outcome(order, old43, Advance(order, old43, p)) == Outcome(order, old43, p)
    ensures |Advance(order, old43, p).out| <= |Outcome(order, old43, p).0|
  {
    hide Int32, NextAddr, RecordOf, Checked, Records, Written;
    var it := p.todo[0];
    RecordsStep(order, old43, p.todo, p.addr);
    if Eligible(old43, it) {
      var rest := Records(order, old43, p.todo[1..], NextAddr(order, old43, it, p.addr));
      WrittenStep(RecordOf(order, old43, it, p.addr), rest, p.space, p.out);
    }
  }

  method Put(src: seq<byte>, req: array?<byte>, at: nat) returns (error: int)
    modifies if req == null then {} else {req}
    ensures error == if at + |src| <= Room(req) && req != null then 0 else EFAULT
    ensures error == 0 ==> req != null && req[..] == Splice(old(req[..]), at, src)
  {
    if req == null { return EFAULT; }
    error := CopyOut(src, req, at);
  }

  /** The copyout of one record: all at once, or name and address apart. */
  method PutRecord(name: seq<byte>, sa: seq<byte>, apart: bool, req: array?<byte>, at: nat) returns (error: int)
    modifies if req == null then {} else {req}
    ensures error == if at + |name + sa| <= Room(req) && req != null then 0 else EFAULT
    ensures error == 0 ==> req != null && req[..] == Splice(old(req[..]), at, name + sa)
  {
    if apart {
      error := Put(name, req, at);
      if error == 0 {
        error := Put(sa, req, at + |name|);
        if error == 0 { SpliceSplice(old(req[..]), at, name, sa); }
      }
    } else {
      error := Put(name + sa, req, at);
    }
  }

  ghost predicate Holds(req: array?<byte>, before: seq<byte>, out: seq<byte>)
    reads if req == null then {} else {req}
  {
    if req == null then out == []
    else |before| == req.Length && |out| <= req.Length && req[..] == Splice(before, 0, out)
  }

  /** The loop body: one address of an interface, or an interface without any.
      `eligible` addresses come here; `p` is the progress so far. */
  method Emit(order: ByteOrder, old43: bool, it: Item, addr: seq<byte>, req: array?<byte>, space: int32, at: nat,
              ghost p: Progress, ghost before: seq<byte>)
    returns (error: int, space': int32, at': nat, addr': seq<byte>)
    requires |p.addr| == SASIZE && p.todo != [] && p.todo[0] == it && Eligible(old43, it)
    requires p == Progress(p.todo, addr, space, p.out) && at == |p.out| && Holds(req, before, p.out)
    modifies if req == null then {} else {req}
    ensures error == 0 || error == EFAULT
    ensures error != 0 ==> |Advance(order, old43, p).out| > Room(req)
    ensures error == 0 ==>
      var q := Advance(order, old43, p);
      q == Progress(q.todo, addr', space', q.out) && at' == |q.out| && Holds(req, before, q.out)
  {
    hide Int32, NextAddr, Named;
    error, space', at', addr' := 0, space, at, NextAddr(order, old43, it, addr);
    var apart := it.Addr? && !old43 && |it.sa| > SASIZE;
    if apart {
      space' := Int32(space - (|it.sa| - SASIZE));
    }
    if space' >= SZ {
      var tail := if apart then it.sa else addr';
      error := PutRecord(Named(it.name), tail, apart, req, at);
      assert Named(it.name) + tail == RecordOf(order, old43, it, addr);
      if error != 0 { return; }
      SpliceSplice(before, 0, p.out, Named(it.name) + tail);
      at' := at + NAMESIZE + |tail|;
    }
    space' := Int32(space' - SZ);
  }

  /** The inner loop: the addresses of one interface; `rest` is what follows. */
  method EmitAddrs(order: ByteOrder, old43: bool, ifp: Interface, start: seq<byte>, ifrp: array?<byte>,
                   budget: int32, cursor: nat, ghost rest: seq<Item>, ghost p0: Progress, ghost before: seq<byte>)
    returns (error: int, space: int32, at: nat, addr: seq<byte>, ghost p: Progress)
    requires |p0.addr| == SASIZE && cursor == |p0.out| && Holds(ifrp, before, p0.out)
    requires p0 == Progress(AddrItems(ifp.name, ifp.addrs) + rest, start, budget, p0.out)
    modifies if ifrp == null then {} else {ifrp}
    ensures |p.addr| == SASIZE && Outcome(order, old43, p) == Outcome(order, old43, p0)
    ensures error == 0 || error == EFAULT
    ensures error != 0 ==> |Outcome(order, old43, p0).0| > Room(ifrp)
    ensures error == 0 ==> p == Progress(rest, addr, space, p.out) && at == |p.out| && Holds(ifrp, before, p.out)
  {
    hide Advance, Outcome, Holds;
    error, space, at, addr, p := 0, budget, cursor, start, p0;
    var j := 0;
    while j < |ifp.addrs|
      invariant 0 <= j <= |ifp.addrs| && |addr| == SASIZE && error == 0
      invariant p == Progress(AddrItems(ifp.name, ifp.addrs[j..]) + rest, addr, space, p.out)
      invariant Outcome(order, old43, p) == Outcome(order, old43, p0)
      invariant at == |p.out| && Holds(ifrp, before, p.out)
    {
      var it := Addr(ifp.name, ifp.addrs[j]);
      assert ifp.addrs[j..][0] == ifp.addrs[j] && ifp.addrs[j..][1..] == ifp.addrs[j + 1..];
      assert p.todo[0] == it && p.todo[1..] == AddrItems(ifp.name, ifp.addrs[j + 1..]) + rest;
      AdvanceKeepsOutcome(order, old43, p);
      j := j + 1;
      if old43 && |it.sa| > SASIZE {
        p := Advance(order, old43, p);
        continue;   // the old command leaves out long addresses
      }
      error, space, at, addr := Emit(order, old43, it, addr, ifrp, space, at, p, before);
      if error != 0 { return; }
      p := Advance(order, old43, p);
    }
    assert p.todo == rest;
  }

  method CompatIfconf(order: ByteOrder, old43: bool, ifs: seq<Interface>, ifc: OifConf, stack: seq<byte>)
    returns (error: int)
    requires |stack| == SASIZE
    modifies ifc`len, if ifc.req == null then {} else {ifc.req}
    ensures var w := Written(Records(order, old43, Items(ifs), stack), if ifc.req == null then 0 else old(ifc.len));
      && (error == 0 <==> AllShort(ifs) && |w.0| <= Room(ifc.req))
      && (error == 0 ==> ifc.len == Reported(old(ifc.len), ifc.req == null, w.1))
      && (error == 0 && ifc.req != null ==> ifc.req[..] == Splice(old(ifc.req[..]), 0, w.0))
    ensures error == 0 || error == ENAMETOOLONG || error == EFAULT
    ensures error == ENAMETOOLONG ==> !AllShort(ifs)
    ensures error != 0 ==> ifc.len == old(ifc.len)
  {
    hide Records, Written, Int32, Advance, Outcome, Holds, Splice, AddrItems, Items;
    Started(order, old43, ifs, stack, if ifc.req == null then 0 else ifc.len);
    Fresh(ifc.req);
    var ifrp, at := ifc.req, 0;
    var space: int32 := if ifrp == null then 0 else ifc.len;
    var addr := stack;
    ghost var before: seq<byte> := if ifrp == null then [] else ifrp[..];
    ghost var p := Progress(Items(ifs), addr, space, []);
    ghost var goal := Outcome(order, old43, p);
    var i := 0;
    error := 0;
    while i < |ifs|
      invariant 0 <= i <= |ifs| && |addr| == SASIZE && error == 0
      invariant p == Progress(Items(ifs[i..]), addr, space, p.out)
      invariant Outcome(order, old43, p) == goal
      invariant at == |p.out| && Holds(ifrp, before, p.out) && ifc.len == old(ifc.len)
      invariant AllShort(ifs[..i])
    {
      var ifp := ifs[i];
      if !ShortName(ifp.name) { return ENAMETOOLONG; }
      NextInterface(ifs, i);
      if ifp.addrs == [] {
        AdvanceKeepsOutcome(order, old43, p);
        error, space, at, addr := Emit(order, old43, NoAddr(ifp.name), addr, ifrp, space, at, p, before);
        if error != 0 { return; }
        p := Advance(order, old43, p);
      } else {
        error, space, at, addr, p := EmitAddrs(order, old43, ifp, addr, ifrp, space, at, Items(ifs[i + 1..]), p, before);
        if error != 0 { return; }
      }
      i := i + 1;
    }
    assert ifs[i..] == [];
    Finished(order, old43, p);
    HoldsAll(ifrp, before, p.out);
    assert ifs[..i] == ifs;
    if ifrp != null {
      ifc.len := Int32(ifc.len - space);
    } else {
      ifc.len := Int32(0 - space);
    }
  }

  lemma NextInterface(ifs: seq<Interface>, i: nat)
    requires i < |ifs| && AllShort(ifs[..i]) && ShortName(ifs[i].name)
    ensures AllShort(ifs[..i + 1])
    ensures var todo := Items(ifs[i..]);
            if ifs[i].addrs == [] then todo != [] && todo[0] == NoAddr(ifs[i].name) && todo[1..] == Items(ifs[i + 1..])
            else todo == AddrItems(ifs[i].name, ifs[i].addrs) + Items(ifs[i + 1..])
  {
    assert ifs[i..][0] == ifs[i] && ifs[i..][1..] == ifs[i + 1..];
  }

  lemma HoldsAll(req: array?<byte>, before: seq<byte>, out: seq<byte>)
    requires Holds(req, before, out)
    ensures |out| <= Room(req)
    ensures req != null ==> |before| == req.Length && req[..] == Splice(before, 0, out)
  {
  }

  lemma Started(order: ByteOrder, old43: bool, ifs: seq<Interface>, stack: seq<byte>, space: int32)
    requires |stack| == SASIZE
    ensures Outcome(order, old43, Progress(Items(ifs), stack, space, [])) ==
            Written(Records(order, old43, Items(ifs), stack), space)
  {
    var w := Written(Records(order, old43, Items(ifs), stack), space);
    assert [] + w.0 == w.0;
  }

  lemma Fresh(req: array?<byte>)
    ensures Holds(req, if req == null then [] else req[..], [])
  {
  }

  lemma Finished(order: ByteOrder, old43: bool, p: Progress)
    requires |p.addr| == SASIZE && p.todo == Items([])
    ensures Outcome(order, old43, p) == (p.out, p.space)
  {
    assert p.out + [] == p.out;
  }
}
