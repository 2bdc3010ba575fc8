/** Getdirentries over well-formed directories: what one call delivers from a
    union stack, and what any run of calls delivers. */
module GetdirentriesRun {
  import opened Bytes
  import opened Kernel
  import opened Vfs
  import opened Getdirentries43

  /** A read at record `i`: whole records up to `j`; one that fails may have
      moved the offset on, too. */
  ghost predicate Answers(d: Dir, i: nat, j: nat, n: nat, rd: ReadResult)
    requires |d.offs| == |d.recs| + 1
  {
    i <= j <= |d.recs| && rd.next == d.offs[j] && (rd.error == 0 ==> Reads(d, i, j, n, rd))
  }

  ghost predicate After(d: Dir, i: nat, off: int) {
    exists j :: i <= j < |d.offs| && off == d.offs[j]
  }

  /** `d` is the directory behind layer `l`. */
  ghost predicate Serves(order: ByteOrder, l: Layer, d: Dir) {
    && l.isDir
    && ValidDir(order, d) && d.offs[0] == 0
    && (forall i: nat, n: nat {:trigger l.readdir(d.offs[i], n)} :: i <= |d.recs| ==>
          exists j: nat :: Answers(d, i, j, n, l.readdir(d.offs[i], n)))
    && forall i: nat, n: nat {:trigger l.fault(d.offs[i], n)} :: i <= |d.recs| ==> After(d, i, l.fault(d.offs[i], n))
  }

  /** A stack of union mounts, top first, every layer a served directory. */
  ghost predicate Served(order: ByteOrder, ls: seq<Layer>, ds: seq<Dir>) {
    && Stack(ls) && |ds| == |ls| && Sound(order, ds)
    && (forall k :: 0 <= k < |ls| ==> Serves(order, ls[k], ds[k]))
    && (forall k :: 0 <= k < |ls| - 1 ==> ls[k].unionRoot)
    && forall k, o, n: nat :: 0 <= k < |ls| ==> |ls[k].readdir(o, n).data| <= n
  }

  predicate Sound(order: ByteOrder, ds: seq<Dir>) {
    forall m :: 0 <= m < |ds| ==> AllWellFormed(order, ds[m].recs) && |ds[m].offs| == |ds[m].recs| + 1
  }

  /** What a program gets for records of this layer. */
  function LayerBytes(order: ByteOrder, l: Layer, rs: seq<seq<byte>>): seq<byte>
    requires AllWellFormed(order, rs)
  {
    if order.BigEndian? && !l.fullDtype then Flatten(rs) else Flatten(AllRewritten(order, rs))
  }

  lemma {:induction false} LayerBytesLength(order: ByteOrder, l: Layer, rs: seq<seq<byte>>)
    requires AllWellFormed(order, rs)
    ensures |LayerBytes(order, l, rs)| == |Flatten(rs)|
    ensures LayerBytes(order, l, rs) == [] <==> rs == []
  {
    hide WellFormed, Rewritten;
    if rs != [] {
      Nonempty(order, rs[0]);
      LayerBytesLength(order, l, rs[1..]);
      assert AllRewritten(order, rs)[1..] == AllRewritten(order, rs[1..]);
    }
  }

  lemma LayerBytesSplit(order: ByteOrder, l: Layer, d: Dir, i: nat, j: nat)
    requires ValidDir(order, d) && i <= j <= |d.recs|
    ensures LayerBytes(order, l, d.recs[i..j]) + LayerBytes(order, l, d.recs[j..]) ==
            LayerBytes(order, l, d.recs[i..])
  {
    hide WellFormed, Rewritten, Flatten;
    var a, b, c := d.recs[i..j], d.recs[j..], d.recs[i..];
    assert c == a + b;
    assert AllRewritten(order, c) == AllRewritten(order, a) + AllRewritten(order, b);
    FlattenAppend(a, b);
    FlattenAppend(AllRewritten(order, a), AllRewritten(order, b));
  }

  /** Reading one layer delivers the records it consumed when the user's buffer
      takes them; otherwise the offset has moved all the same, unless VOP_READDIR
      itself met the fault and left it. */
  lemma ReadLayerDelivers(order: ByteOrder, l: Layer, d: Dir, i: nat, j: nat, count: nat,
                          junk: seq<byte>, room: nat)
    requires ValidDir(order, d) && i <= |d.recs| && Reads(d, i, j, count, l.readdir(d.offs[i], count))
    requires count + LE_SLACK <= |junk|
    ensures ReadLayer(order, l, d.offs[i], count, junk, room) ==
            if |Flatten(d.recs[i..j])| <= room then Read1(0, LayerBytes(order, l, d.recs[i..j]), d.offs[j])
            else Read1(EFAULT, [], if Straight(order, l) then l.fault(d.offs[i], count) else d.offs[j])
  {
    hide Walk, WellFormed;
    var rd, rs := l.readdir(d.offs[i], count), d.recs[i..j];
    LayerBytesLength(order, l, rs);
    if !Straight(order, l) {
      var mem, n := rd.data + junk[|rd.data|..], |rd.data|;
      assert mem[0..n] == Flatten(rs);
      WalkTiled(order, mem, 0, n, rs);
      assert (mem[..0] + Flatten(AllRewritten(order, rs)) + mem[n..])[..n] == Flatten(AllRewritten(order, rs));
    }
  }

  /** So a read loses no entry if and only if the data fits the user's buffer, or
      VOP_READDIR met the fault itself and has not moved the offset. */
  lemma ReadConservesIffFits(order: ByteOrder, l: Layer, d: Dir, i: nat, j: nat, count: nat,
                             junk: seq<byte>, room: nat) returns (b: nat)
    requires Serves(order, l, d) && i <= |d.recs| && Reads(d, i, j, count, l.readdir(d.offs[i], count))
    requires count + LE_SLACK <= |junk|
    ensures i <= b <= |d.recs|
    ensures var r := ReadLayer(order, l, d.offs[i], count, junk, room);
            && r.off == d.offs[b]
            && (r.out + LayerBytes(order, l, d.recs[b..]) == LayerBytes(order, l, d.recs[i..])
                <==> |Flatten(d.recs[i..j])| <= room || (Straight(order, l) && l.fault(d.offs[i], count) == d.offs[i]))
  {
    hide WellFormed, ReadLayer, LayerBytes, Flatten, Straight;
    ReadLayerDelivers(order, l, d, i, j, count, junk, room);
    if |Flatten(d.recs[i..j])| > room && Straight(order, l) {
      b := FaultOffset(order, l, d, i, count);
    } else {
      b := j;
    }
    LayerBytesSplit(order, l, d, i, b);
    LayerBytesLength(order, l, d.recs[i..b]);
    LayerBytesLength(order, l, d.recs[i..j]);
    assert i < b ==> d.offs[i] != d.offs[b];
  }

  /** Everything a program reading on from record `i` of layer `k` should see. */
  function Remaining(order: ByteOrder, ls: seq<Layer>, ds: seq<Dir>, k: nat, i: nat): seq<byte>
    requires |ls| == |ds| && k < |ls| && i <= |ds[k].recs|
    requires Sound(order, ds)
    decreases |ls| - k
  {
    assert AllWellFormed(order, ds[k].recs);
    LayerBytes(order, ls[k], ds[k].recs[i..]) +
    if k + 1 < |ls| then Remaining(order, ls, ds, k + 1, 0) else []
  }

  function RecordsLeft(ds: seq<Dir>, k: nat, i: nat): nat
    requires k < |ds| && i <= |ds[k].recs|
    decreases |ds| - k
  {
    |ds[k].recs| - i + if k + 1 < |ds| then RecordsLeft(ds, k + 1, 0) else 0
  }

  lemma {:induction false} RemainingSplit(order: ByteOrder, ls: seq<Layer>, ds: seq<Dir>, k: nat, i: nat, j: nat)
    requires Served(order, ls, ds) && k < |ls| && i <= j <= |ds[k].recs|
    ensures AllWellFormed(order, ds[k].recs)
    ensures LayerBytes(order, ls[k], ds[k].recs[i..j]) + Remaining(order, ls, ds, k, j) == Remaining(order, ls, ds, k, i)
    ensures LayerBytes(order, ls[k], ds[k].recs[i..j]) == [] <==> i == j
  {
    hide WellFormed, LayerBytes;
    assert Serves(order, ls[k], ds[k]);
    LayerBytesSplit(order, ls[k], ds[k], i, j);
    LayerBytesLength(order, ls[k], ds[k].recs[i..j]);
  }

  /** Nothing is lost by reading on below the last record of a layer, and all
      that is unread by doing so earlier. */
  lemma RemainingBelow(order: ByteOrder, ls: seq<Layer>, ds: seq<Dir>, k: nat, i: nat)
    requires Served(order, ls, ds) && k + 1 < |ls| && i <= |ds[k].recs|
    ensures i == |ds[k].recs| ==> Remaining(order, ls, ds, k, i) == Remaining(order, ls, ds, k + 1, 0)
    ensures i < |ds[k].recs| ==> |Remaining(order, ls, ds, k, i)| > |Remaining(order, ls, ds, k + 1, 0)|
  {
    hide WellFormed, LayerBytes;
    LayerBytesLength(order, ls[k], ds[k].recs[i..]);
  }

  // ---- one call: what it loses ---------------------------------------------------

  /** What the program has received: a call that fails reports no length. */
  function Received(r: Result43): seq<byte> {
    if r.error == 0 then r.out else []
  }

  /** When a call from record `i` of layer `k` loses nothing: a read that fails
      has not moved the offset; the descent leaves no unread record behind, for
      which it is enough that the next one is in the last layer or fits the
      count; and what is read reaches the user, with its *basep. */
  predicate Lossless(order: ByteOrder, ls: seq<Layer>, ds: seq<Dir>, k: nat, i: nat, count: nat, room: nat,
                     baseOk: bool)
    requires |ls| == |ds| && k < |ls| && i <= |ds[k].recs|
    requires forall m :: 0 <= m < |ds| ==> |ds[m].offs| == |ds[m].recs| + 1
    decreases |ls| - k
  {
    var d, rd := ds[k], ls[k].readdir(ds[k].offs[i], count);
    if rd.error != 0 then rd.next == d.offs[i]
    else if i == |d.recs| then k + 1 == |ls| || Lossless(order, ls, ds, k + 1, 0, count, room, baseOk)
    else if count < |d.recs[i]| then k + 1 == |ls|
    else if |rd.data| <= room then baseOk
    else Straight(order, ls[k]) && ls[k].fault(d.offs[i], count) == d.offs[i]
  }

  /** Where a call from record `i` of layer `k` leaves the file, and what it can
      have delivered: records of one layer, from the offset reported on. */
  ghost predicate Position(order: ByteOrder, ls: seq<Layer>, ds: seq<Dir>, k: nat, i: nat, r: Result43, b: nat)
    requires |ls| == |ds| && k < |ls| && i <= |ds[k].recs|
    requires Sound(order, ds)
  {
    && k <= r.layer < |ls|
    && var first := if r.layer == k then i else 0;
    && var d := ds[r.layer];
    && AllWellFormed(order, d.recs)
    && first <= b <= |d.recs| && r.off == d.offs[b] && r.base == d.offs[first]
    && (r.out == [] || r.out == LayerBytes(order, ls[r.layer], d.recs[first..b]))
  }

  /** A read of one layer that fails in VOP_READDIR. */
  lemma FailedRead(order: ByteOrder, l: Layer, d: Dir, i: nat, count: nat, junk: seq<byte>, room: nat) returns (b: nat)
    requires Serves(order, l, d) && i <= |d.recs| && Adequate(l, d.offs[i], count, junk)
    requires l.readdir(d.offs[i], count).error != 0
    ensures i <= b <= |d.recs|
    ensures var rd := l.readdir(d.offs[i], count);
      rd.next == d.offs[b] && ReadLayer(order, l, d.offs[i], count, junk, room) == Read1(rd.error, [], d.offs[b])
  {
    b :| Answers(d, i, b, count, l.readdir(d.offs[i], count));
  }

  /** One that does not: how many records were read, and where the file ends. */
  lemma GoodRead(order: ByteOrder, l: Layer, d: Dir, i: nat, count: nat, junk: seq<byte>, room: nat)
    returns (j: nat, b: nat)
    requires Serves(order, l, d) && i <= |d.recs| && Adequate(l, d.offs[i], count, junk) && |junk| >= count + LE_SLACK
    requires l.readdir(d.offs[i], count).error == 0
    ensures i <= j <= |d.recs| && i <= b <= |d.recs|
    ensures var data := l.readdir(d.offs[i], count).data;
      && (i < j <==> i < |d.recs| && |d.recs[i]| <= count)
      && (data == [] <==> i == j) && |data| <= count
      && (b != j ==> |data| > room && Straight(order, l) && d.offs[b] == l.fault(d.offs[i], count))
      && (|data| > room && Straight(order, l) ==> d.offs[b] == l.fault(d.offs[i], count))
      && ReadLayer(order, l, d.offs[i], count, junk, room) ==
         if |data| <= room then Read1(0, LayerBytes(order, l, d.recs[i..j]), d.offs[b])
         else Read1(EFAULT, [], d.offs[b])
  {
    hide WellFormed, LayerBytes, ReadLayer, Straight, Serves, Flatten;
    j := Answer(order, l, d, i, count);
    RecordsRead(order, l, d, i, j, count, l.readdir(d.offs[i], count));
    ReadLayerDelivers(order, l, d, i, j, count, junk, room);
    b := j;
    if |l.readdir(d.offs[i], count).data| > room && Straight(order, l) {
      b := FaultOffset(order, l, d, i, count);
    }
  }

  lemma Answer(order: ByteOrder, l: Layer, d: Dir, i: nat, count: nat) returns (j: nat)
    requires Serves(order, l, d) && i <= |d.recs|
    ensures ValidDir(order, d) && Answers(d, i, j, count, l.readdir(d.offs[i], count))
  {
    hide WellFormed;
    j :| Answers(d, i, j, count, l.readdir(d.offs[i], count));
  }

  lemma RecordsRead(order: ByteOrder, l: Layer, d: Dir, i: nat, j: nat, count: nat, rd: ReadResult)
    requires ValidDir(order, d) && Reads(d, i, j, count, rd)
    ensures i < j <==> i < |d.recs| && |d.recs[i]| <= count
    ensures rd.data == [] <==> i == j
  {
    hide WellFormed, LayerBytes;
    LayerBytesLength(order, l, d.recs[i..j]);
    FirstFits(d, i, j, count);
  }

  lemma FaultOffset(order: ByteOrder, l: Layer, d: Dir, i: nat, count: nat) returns (b: nat)
    requires Serves(order, l, d) && i <= |d.recs|
    ensures i <= b <= |d.recs| && l.fault(d.offs[i], count) == d.offs[b]
  {
    hide WellFormed;
    assert After(d, i, l.fault(d.offs[i], count));
    b :| i <= b < |d.offs| && l.fault(d.offs[i], count) == d.offs[b];
  }

  lemma FirstFits(d: Dir, i: nat, j: nat, count: nat)
    requires i <= j <= |d.recs| && |Flatten(d.recs[i..j])| <= count
    ensures i < j ==> |d.recs[i]| <= count
  {
    if i < j { assert d.recs[i..j][0] == d.recs[i]; }
  }

  /** What a layer is in its stack. */
  lemma InStack(order: ByteOrder, ls: seq<Layer>, ds: seq<Dir>, k: nat, off: int, count: nat)
    requires Served(order, ls, ds) && k < |ls|
    ensures Serves(order, ls[k], ds[k]) && ls[k].isDir && (k + 1 < |ls| <==> ls[k].unionRoot)
    ensures ValidDir(order, ds[k]) && ds[k].offs[0] == 0
    ensures |ls[k].readdir(off, count).data| <= count
  {
    hide WellFormed;
  }

  /** The call goes on below layer `k`. */
  predicate Descends(l: Layer, off: int, count: nat) {
    l.readdir(off, count).error == 0 && l.readdir(off, count).data == [] && l.unionRoot
  }

  /** A call that does not. */
  lemma EndsHere(order: ByteOrder, ls: seq<Layer>, ds: seq<Dir>, k: nat, i: nat,
                 count: nat, junk: seq<byte>, room: nat, baseOk: bool)
    returns (b: nat)
    requires Served(order, ls, ds) && k < |ls| && i <= |ds[k].recs|
    requires |junk| >= count + LE_SLACK && !Descends(ls[k], ds[k].offs[i], count)
    ensures i <= b <= |ds[k].recs|
    ensures var r := Call43(order, ls, k, ds[k].offs[i], count, junk, room, baseOk);
      && r.layer == k && Position(order, ls, ds, k, i, r, b)
      && (Lossless(order, ls, ds, k, i, count, room, baseOk) <==> Received(r) != [] || i == b)
      && (Received(r) != [] ==> Received(r) == LayerBytes(order, ls[k], ds[k].recs[i..b]))
  {
    hide WellFormed, ReadLayer, LayerBytes, Flatten, Serves, Straight;
    var l, d := ls[k], ds[k];
    InStack(order, ls, ds, k, d.offs[i], count);
    if l.readdir(d.offs[i], count).error != 0 {
      b := FailedRead(order, l, d, i, count, junk, room);
    } else {
      var j;
      j, b := GoodRead(order, l, d, i, count, junk, room);
      RemainingSplit(order, ls, ds, k, i, j);
    }
    assert i != b ==> d.offs[i] != d.offs[b];
  }

  /** A call that does: there was no record, or none that fits. */
  lemma FallsThrough(order: ByteOrder, ls: seq<Layer>, ds: seq<Dir>, k: nat, i: nat,
                     count: nat, junk: seq<byte>, room: nat, baseOk: bool)
    requires Served(order, ls, ds) && k < |ls| && i <= |ds[k].recs|
    requires |junk| >= count + LE_SLACK && Descends(ls[k], ds[k].offs[i], count)
    ensures k + 1 < |ls| && (i == |ds[k].recs| || count < |ds[k].recs[i]|) && ds[k + 1].offs[0] == 0
    ensures Call43(order, ls, k, ds[k].offs[i], count, junk, room, baseOk) ==
            Call43(order, ls, k + 1, 0, count, junk, room, baseOk)
  {
    hide WellFormed, ReadLayer, LayerBytes, Flatten, Serves, Straight;
    InStack(order, ls, ds, k, ds[k].offs[i], count);
    var j, b := GoodRead(order, ls[k], ds[k], i, count, junk, room);
    RemainingSplit(order, ls, ds, k, i, j);
    InStack(order, ls, ds, k + 1, 0, count);
  }

  lemma PositionBelow(order: ByteOrder, ls: seq<Layer>, ds: seq<Dir>, k: nat, i: nat, r: Result43, b: nat)
    requires Served(order, ls, ds) && k + 1 < |ls| && i <= |ds[k].recs|
    requires Position(order, ls, ds, k + 1, 0, r, b)
    ensures Position(order, ls, ds, k, i, r, b)
  {
    hide WellFormed, LayerBytes, Serves;
  }

  /** One call: what the program receives and what is left make up what there was
      if and only if it is lossless; otherwise there is less. */
  lemma {:induction false} CallConservesIff(order: ByteOrder, ls: seq<Layer>, ds: seq<Dir>, k: nat, i: nat,
                                            count: nat, junk: seq<byte>, room: nat, baseOk: bool)
    returns (b: nat)
    requires Served(order, ls, ds) && k < |ls| && i <= |ds[k].recs|
    requires |junk| >= count + LE_SLACK
    ensures var r := Call43(order, ls, k, ds[k].offs[i], count, junk, room, baseOk);
      && Position(order, ls, ds, k, i, r, b)
      && var rest, all := Remaining(order, ls, ds, r.layer, b), Remaining(order, ls, ds, k, i);
      && (Lossless(order, ls, ds, k, i, count, room, baseOk) <==> Received(r) + rest == all)
      && (Lossless(order, ls, ds, k, i, count, room, baseOk) || |Received(r) + rest| < |all|)
    decreases |ls| - k
  {
    hide WellFormed, ReadLayer, LayerBytes, Flatten, Remaining, Serves, Straight, Call43, Position;
    if Descends(ls[k], ds[k].offs[i], count) {
      FallsThrough(order, ls, ds, k, i, count, junk, room, baseOk);
      RemainingBelow(order, ls, ds, k, i);
      b := CallConservesIff(order, ls, ds, k + 1, 0, count, junk, room, baseOk);
      PositionBelow(order, ls, ds, k, i, Call43(order, ls, k + 1, 0, count, junk, room, baseOk), b);
    } else {
      b := EndsHere(order, ls, ds, k, i, count, junk, room, baseOk);
      RemainingSplit(order, ls, ds, k, i, b);
    }
  }

  /** The error of a call: that of the last read, a fault, or none. */
  lemma {:induction false} CallError(order: ByteOrder, ls: seq<Layer>, ds: seq<Dir>, k: nat, i: nat,
                                     count: nat, junk: seq<byte>, room: nat, baseOk: bool)
    requires Served(order, ls, ds) && k < |ls| && i <= |ds[k].recs|
    requires |junk| >= count + LE_SLACK
    ensures var r := Call43(order, ls, k, ds[k].offs[i], count, junk, room, baseOk);
      && k <= r.layer < |ls|
      && var rd := ls[r.layer].readdir(if r.layer == k then ds[k].offs[i] else 0, count);
      r.error == if rd.error != 0 then rd.error else if |rd.data| > room || !baseOk then 14 else 0
    decreases |ls| - k
  {
    hide WellFormed, ReadLayer, LayerBytes, Flatten, Serves, Straight;
    var l, d := ls[k], ds[k];
    InStack(order, ls, ds, k, d.offs[i], count);
    if Descends(l, d.offs[i], count) {
      FallsThrough(order, ls, ds, k, i, count, junk, room, baseOk);
      CallError(order, ls, ds, k + 1, 0, count, junk, room, baseOk);
    } else if l.readdir(d.offs[i], count).error != 0 {
      var b := FailedRead(order, l, d, i, count, junk, room);
    } else {
      var j, b := GoodRead(order, l, d, i, count, junk, room);
      RemainingSplit(order, ls, ds, k, i, j);
    }
  }

  // ---- the same as a condition on the count -----------------------------------------

  /** The layer that holds the next unread record, or |ds|. */
  function NextLayer(ds: seq<Dir>, k: nat, i: nat): (m: nat)
    requires k < |ds| && i <= |ds[k].recs|
    ensures k <= m <= |ds|
    ensures m < |ds| ==> (if m == k then i else 0) < |ds[m].recs|
    ensures m == |ds| <==> RecordsLeft(ds, k, i) == 0
    decreases |ds| - k
  {
    if i < |ds[k].recs| then k else if k + 1 < |ds| then NextLayer(ds, k + 1, 0) else |ds|
  }

  /** The next unread record, if there is one, and its size. */
  function NextSize(ds: seq<Dir>, k: nat, i: nat): Option<nat>
    requires k < |ds| && i <= |ds[k].recs|
  {
    var m := NextLayer(ds, k, i);
    if m == |ds| then None else Some(|ds[m].recs[if m == k then i else 0]|)
  }

  /** There is room for the next unread record. */
  predicate NextFits(ds: seq<Dir>, k: nat, i: nat, count: nat)
    requires k < |ds| && i <= |ds[k].recs|
  {
    NextSize(ds, k, i).Some? ==> NextSize(ds, k, i).value <= count
  }

  ghost predicate Reliable(ls: seq<Layer>) {
    forall k, o, n: nat :: 0 <= k < |ls| ==> ls[k].readdir(o, n).error == 0
  }

  /** Where reads do not fail and the buffer is as long as its count says, a call
      loses nothing if and only if no record is left, or the next one fits the
      count and *basep can be written, or it does not and is in the last layer. */
  lemma {:induction false} LosslessIffNextFits(order: ByteOrder, ls: seq<Layer>, ds: seq<Dir>, k: nat, i: nat,
                                               count: nat, room: nat, baseOk: bool)
    requires Served(order, ls, ds) && k < |ls| && i <= |ds[k].recs|
    requires Reliable(ls) && count <= room
    ensures Lossless(order, ls, ds, k, i, count, room, baseOk) <==>
            match NextSize(ds, k, i)
            case None => true
            case Some(n) => if n <= count then baseOk else NextLayer(ds, k, i) + 1 == |ds|
    decreases |ls| - k
  {
    hide Serves, Straight;
    var off := ds[k].offs[i];
    assert |ls[k].readdir(off, count).data| <= count && ls[k].readdir(off, count).error == 0;
    if i == |ds[k].recs| && k + 1 < |ls| {
      LosslessIffNextFits(order, ls, ds, k + 1, 0, count, room, baseOk);
    }
  }

  /** A call whose count has room for the next record, in whatever layer, delivers
      it, unless nothing is left or *basep cannot be written. */
  lemma {:induction false} CallDelivers(order: ByteOrder, ls: seq<Layer>, ds: seq<Dir>, k: nat, i: nat, count: nat,
                                        junk: seq<byte>, room: nat, baseOk: bool)
    requires Served(order, ls, ds) && k < |ls| && i <= |ds[k].recs|
    requires Reliable(ls) && |junk| >= count + LE_SLACK && count <= room
    requires NextFits(ds, k, i, count)
    ensures var r := Call43(order, ls, k, ds[k].offs[i], count, junk, room, baseOk);
      && r.error == (if baseOk then 0 else EFAULT)
      && (Received(r) == [] <==> !baseOk || RecordsLeft(ds, k, i) == 0)
    decreases |ls| - k
  {
    hide WellFormed, ReadLayer, LayerBytes, Flatten, Serves;
    var l, off := ls[k], ds[k].offs[i];
    InStack(order, ls, ds, k, off, count);
    assert l.readdir(off, count).error == 0;
    var j, b := GoodRead(order, l, ds[k], i, count, junk, room);
    RemainingSplit(order, ls, ds, k, i, j);
    if i == j && l.unionRoot {
      InStack(order, ls, ds, k + 1, 0, count);
      CallDelivers(order, ls, ds, k + 1, 0, count, junk, room, baseOk);
    }
  }

  /** The same for the count of the system call, with 64 KB as the most it asks for. */
  lemma UserCountDelivers(order: ByteOrder, ls: seq<Layer>, ds: seq<Dir>, k: nat, i: nat, ucount: nat,
                          junk: seq<byte>, room: nat)
    requires Served(order, ls, ds) && k < |ls| && i <= |ds[k].recs| && Reliable(ls)
    requires ucount < 0x1_0000_0000 && |junk| >= 0x1_0000 + LE_SLACK && ucount <= room
    requires NextSize(ds, k, i).Some? ==> NextSize(ds, k, i).value <= ucount && NextSize(ds, k, i).value <= 0x1_0000
    ensures var r := Call43(order, ls, k, ds[k].offs[i], Asked(ucount), junk, room, true);
      r.error == 0 && (r.out == [] <==> RecordsLeft(ds, k, i) == 0)
  {
    hide Serves, Call43;
    CallDelivers(order, ls, ds, k, i, Asked(ucount), junk, room, true);
  }

  // ---- any run of calls --------------------------------------------------------

  datatype Req = Req(count: nat, junk: seq<byte>, room: nat, baseOk: bool)

  predicate Allocated(cs: seq<Req>) {
    forall i :: 0 <= i < |cs| ==> |cs[i].junk| >= cs[i].count + LE_SLACK
  }

  function Step(order: ByteOrder, ls: seq<Layer>, k: nat, off: int, c: Req): Result43
    requires Stack(ls) && k < |ls|
    requires |c.junk| >= c.count + LE_SLACK
    requires forall k, o :: 0 <= k < |ls| ==> |ls[k].readdir(o, c.count).data| <= c.count
  {
    Call43(order, ls, k, off, c.count, c.junk, c.room, c.baseOk)
  }

  /** Where the file ends, and all that the program has received. */
  ghost function Run(order: ByteOrder, ls: seq<Layer>, ds: seq<Dir>, k: nat, off: int, cs: seq<Req>): (nat, int, seq<byte>)
    requires Served(order, ls, ds) && k < |ls| && Allocated(cs)
    decreases cs
  {
    if cs == [] then (k, off, [])
    else
      var r := Step(order, ls, k, off, cs[0]);
      var (k', off', rest) := Run(order, ls, ds, r.layer, r.off, cs[1..]);
      (k', off', Received(r) + rest)
  }

  ghost predicate LosslessAt(order: ByteOrder, ls: seq<Layer>, ds: seq<Dir>, k: nat, off: int, c: Req)
    requires Served(order, ls, ds) && k < |ls|
  {
    exists i: nat {:trigger ds[k].offs[i]} ::
      i <= |ds[k].recs| && ds[k].offs[i] == off && Lossless(order, ls, ds, k, i, c.count, c.room, c.baseOk)
  }

  /** Every call of a run is lossless where it is made. */
  ghost predicate AllLossless(order: ByteOrder, ls: seq<Layer>, ds: seq<Dir>, k: nat, off: int, cs: seq<Req>)
    requires Served(order, ls, ds) && k < |ls| && Allocated(cs)
    decreases cs
  {
    cs != [] ==>
      && LosslessAt(order, ls, ds, k, off, cs[0])
      && var r := Step(order, ls, k, off, cs[0]);
      AllLossless(order, ls, ds, r.layer, r.off, cs[1..])
  }

  lemma AtRecord(order: ByteOrder, ls: seq<Layer>, ds: seq<Dir>, k: nat, i: nat, c: Req)
    requires Served(order, ls, ds) && k < |ls| && i <= |ds[k].recs|
    ensures LosslessAt(order, ls, ds, k, ds[k].offs[i], c) <==> Lossless(order, ls, ds, k, i, c.count, c.room, c.baseOk)
  {
    hide Lossless;
    assert Serves(order, ls[k], ds[k]);
  }

  /** Whole runs, whichever calls fail: all that was delivered, followed by what is
      left to read, is what there was to read at the start if and only if every
      call was lossless where it was made. */
  lemma {:induction false} WholeRun(order: ByteOrder, ls: seq<Layer>, ds: seq<Dir>, k: nat, i: nat, cs: seq<Req>)
    returns (b: nat)
    requires Served(order, ls, ds) && k < |ls| && i <= |ds[k].recs| && Allocated(cs)
    ensures var (k', off', out) := Run(order, ls, ds, k, ds[k].offs[i], cs);
      && k <= k' < |ls| && b <= |ds[k'].recs| && off' == ds[k'].offs[b]
      && var rest := Remaining(order, ls, ds, k', b);
      && (AllLossless(order, ls, ds, k, ds[k].offs[i], cs) <==> out + rest == Remaining(order, ls, ds, k, i))
      && |out + rest| <= |Remaining(order, ls, ds, k, i)|
    decreases cs
  {
    hide Remaining, Call43, Serves, LayerBytes, Lossless, LosslessAt;
    if cs == [] {
      b := i;
    } else {
      var c := cs[0];
      var m := CallConservesIff(order, ls, ds, k, i, c.count, c.junk, c.room, c.baseOk);
      var r := Step(order, ls, k, ds[k].offs[i], c);
      AtRecord(order, ls, ds, k, i, c);
      b := WholeRun(order, ls, ds, r.layer, m, cs[1..]);
      var (k', off', out) := Run(order, ls, ds, r.layer, r.off, cs[1..]);
      Concatenated(Received(r), out, Remaining(order, ls, ds, k', b), Remaining(order, ls, ds, r.layer, m));
    }
  }

  lemma Concatenated(a: seq<byte>, b: seq<byte>, c: seq<byte>, d: seq<byte>)
    ensures a + b + c == a + (b + c)
    ensures a + b + c == a + d <==> b + c == d
  {
    assert (a + (b + c))[|a|..] == b + c && (a + d)[|a|..] == d;
  }

  /** Every call of a run has room for the next record, wherever it is, and can
      report *basep. */
  ghost predicate AllFit(order: ByteOrder, ls: seq<Layer>, ds: seq<Dir>, k: nat, off: int, cs: seq<Req>)
    requires Served(order, ls, ds) && k < |ls| && Allocated(cs)
    decreases cs
  {
    cs != [] ==>
      && cs[0].count <= cs[0].room && cs[0].baseOk
      && (exists i: nat {:trigger ds[k].offs[i]} ::
            i <= |ds[k].recs| && ds[k].offs[i] == off && NextFits(ds, k, i, cs[0].count))
      && var r := Step(order, ls, k, off, cs[0]);
      AllFit(order, ls, ds, r.layer, r.off, cs[1..])
  }

  /** One call of such a run. */
  lemma FittingCall(order: ByteOrder, ls: seq<Layer>, ds: seq<Dir>, k: nat, i: nat, c: Req) returns (b: nat)
    requires Served(order, ls, ds) && k < |ls| && i <= |ds[k].recs| && |c.junk| >= c.count + LE_SLACK
    requires Reliable(ls) && c.count <= c.room && c.baseOk && NextFits(ds, k, i, c.count)
    ensures var r := Step(order, ls, k, ds[k].offs[i], c);
      && k <= r.layer < |ls| && b <= |ds[r.layer].recs| && r.off == ds[r.layer].offs[b]
      && Received(r) + Remaining(order, ls, ds, r.layer, b) == Remaining(order, ls, ds, k, i)
      && RecordsLeft(ds, r.layer, b) <= RecordsLeft(ds, k, i)
      && (RecordsLeft(ds, r.layer, b) < RecordsLeft(ds, k, i) || RecordsLeft(ds, k, i) == 0)
  {
    hide Remaining, RecordsLeft, Call43, LayerBytes, Lossless, Serves;
    LosslessIffNextFits(order, ls, ds, k, i, c.count, c.room, c.baseOk);
    CallDelivers(order, ls, ds, k, i, c.count, c.junk, c.room, c.baseOk);
    b := CallConservesIff(order, ls, ds, k, i, c.count, c.junk, c.room, c.baseOk);
    FewerLeft(order, ls, ds, k, i, Step(order, ls, k, ds[k].offs[i], c), b);
  }

  /** Such a run loses nothing, and enough calls reach the end. */
  lemma {:induction false} RunReachesEnd(order: ByteOrder, ls: seq<Layer>, ds: seq<Dir>, k: nat, i: nat, cs: seq<Req>)
    returns (b: nat)
    requires Served(order, ls, ds) && k < |ls| && i <= |ds[k].recs| && Allocated(cs)
    requires Reliable(ls) && AllFit(order, ls, ds, k, ds[k].offs[i], cs)
    ensures var (k', off', out) := Run(order, ls, ds, k, ds[k].offs[i], cs);
      && k <= k' < |ls| && b <= |ds[k'].recs| && off' == ds[k'].offs[b]
      && out + Remaining(order, ls, ds, k', b) == Remaining(order, ls, ds, k, i)
      && RecordsLeft(ds, k', b) <= RecordsLeft(ds, k, i)
      && (|cs| >= RecordsLeft(ds, k, i) ==> RecordsLeft(ds, k', b) == 0)
    decreases cs
  {
    hide Remaining, RecordsLeft, Step, Serves, NextFits;
    if cs == [] {
      b := i;
    } else {
      FitsHere(order, ls, ds, k, i, cs);
      var m := FittingCall(order, ls, ds, k, i, cs[0]);
      var r := Step(order, ls, k, ds[k].offs[i], cs[0]);
      b := RunReachesEnd(order, ls, ds, r.layer, m, cs[1..]);
      var (k', off', out) := Run(order, ls, ds, r.layer, r.off, cs[1..]);
      Concatenated(Received(r), out, Remaining(order, ls, ds, k', b), Remaining(order, ls, ds, r.layer, m));
    }
  }

  lemma FitsHere(order: ByteOrder, ls: seq<Layer>, ds: seq<Dir>, k: nat, i: nat, cs: seq<Req>)
    requires Served(order, ls, ds) && k < |ls| && i <= |ds[k].recs| && Allocated(cs)
    requires cs != [] && AllFit(order, ls, ds, k, ds[k].offs[i], cs)
    ensures cs[0].count <= cs[0].room && cs[0].baseOk && NextFits(ds, k, i, cs[0].count)
  {
    hide NextFits;
    assert Serves(order, ls[k], ds[k]);
  }

  lemma {:induction false} LeftBelow(ds: seq<Dir>, k: nat, i: nat, m: nat, b: nat)
    requires k < m < |ds| && i <= |ds[k].recs| && b <= |ds[m].recs|
    ensures RecordsLeft(ds, m, b) + b <= RecordsLeft(ds, k, i)
    decreases m - k
  {
    if k + 1 < m {
      LeftBelow(ds, k + 1, 0, m, b);
    }
  }

  lemma FewerLeft(order: ByteOrder, ls: seq<Layer>, ds: seq<Dir>, k: nat, i: nat, r: Result43, b: nat)
    requires Served(order, ls, ds) && k < |ls| && i <= |ds[k].recs|
    requires Position(order, ls, ds, k, i, r, b)
    ensures RecordsLeft(ds, r.layer, b) <= RecordsLeft(ds, k, i)
    ensures r.out != [] ==> RecordsLeft(ds, r.layer, b) < RecordsLeft(ds, k, i)
  {
    hide WellFormed, LayerBytes;
    var first := if r.layer == k then i else 0;
    LayerBytesLength(order, ls[r.layer], ds[r.layer].recs[first..b]);
    if r.layer > k {
      LeftBelow(ds, k, i, r.layer, b);
    }
  }

  /** Nothing left means the whole stack has been delivered. */
  lemma {:induction false} NothingLeft(order: ByteOrder, ls: seq<Layer>, ds: seq<Dir>, k: nat, i: nat)
    requires Served(order, ls, ds) && k < |ls| && i <= |ds[k].recs|
    ensures RecordsLeft(ds, k, i) == 0 <==> Remaining(order, ls, ds, k, i) == []
    decreases |ls| - k
  {
    hide WellFormed, LayerBytes;
    assert Serves(order, ls[k], ds[k]);
    LayerBytesLength(order, ls[k], ds[k].recs[i..]);
    if k + 1 < |ls| {
      NothingLeft(order, ls, ds, k + 1, 0);
    }
  }

  /** A count of zero reads nothing from any layer: the file falls through to
      the bottom of the stack, past every entry. */
  lemma {:induction false} ZeroCountSkipsLayers(order: ByteOrder, ls: seq<Layer>, k: nat, off: int, junk: seq<byte>,
                                                room: nat, baseOk: bool)
    requires Stack(ls) && k < |ls| && |junk| >= LE_SLACK
    requires forall k :: 0 <= k < |ls| ==> ls[k].isDir
    requires forall k :: 0 <= k < |ls| - 1 ==> ls[k].unionRoot
    requires forall k, o :: 0 <= k < |ls| ==> ls[k].readdir(o, 0).error == 0 && ls[k].readdir(o, 0).data == []
    ensures var r := Call43(order, ls, k, off, 0, junk, room, baseOk);
            r.layer == |ls| - 1 && r.out == []
    decreases |ls| - k
  {
    if k + 1 < |ls| {
      ZeroCountSkipsLayers(order, ls, k + 1, 0, junk, room, baseOk);
    }
  }
}
