/** Getdents over well-formed directories: what one call delivers, and what
    any run of calls delivers. */
module GetdentsRun {
  import opened Bytes
  import opened Kernel
  import opened Vfs
  import opened Getdents30

  /** The old entry a native record stands for: the inode number cut to 32
      bits, the name to 255 bytes. */
  function Converted(order: ByteOrder, r: seq<byte>): (d: Dirent12)
    requires WellFormed(order, r)
    ensures |d.name| < OLD_NAME_SIZE
  {
    var n := Field(order, r, NAMLEN_OFF, 2);
    Dirent12(Field(order, r, 0, FILENO_SIZE) % 0x1_0000_0000, r[TYPE_OFF],
             r[NAME_OFF..NAME_OFF + if n < OLD_NAME_SIZE then n else OLD_NAME_SIZE - 1])
  }

  function AllConverted(order: ByteOrder, rs: seq<seq<byte>>): (ds: seq<Dirent12>)
    requires AllWellFormed(order, rs)
    ensures |ds| == |rs| && forall i :: 0 <= i < |ds| ==> ds[i] == Converted(order, rs[i])
  {
    seq(|rs|, i requires 0 <= i < |rs| => Converted(order, rs[i]))
  }

  predicate Short(ds: seq<Dirent12>) {
    forall i :: 0 <= i < |ds| ==> |ds[i].name| < OLD_NAME_SIZE
  }

  function EncodeAll(order: ByteOrder, ds: seq<Dirent12>): seq<byte>
    requires Short(ds)
  {
    if ds == [] then [] else Encode12(order, ds[0]) + EncodeAll(order, ds[1..])
  }

  lemma EncodeAllCons(order: ByteOrder, ds: seq<Dirent12>)
    requires Short(ds) && ds != []
    ensures EncodeAll(order, ds) == Encode12(order, ds[0]) + EncodeAll(order, ds[1..])
  {
    hide Encode12;
  }

  lemma {:induction false} EncodeAllAppend(order: ByteOrder, a: seq<Dirent12>, b: seq<Dirent12>)
    requires Short(a) && Short(b)
    ensures EncodeAll(order, a + b) == EncodeAll(order, a) + EncodeAll(order, b)
    decreases a
  {
    if a == [] {
      assert a + b == b && EncodeAll(order, a) == [];
    } else {
      AppendStep(order, a, b);
    }
  }

  lemma AppendStep(order: ByteOrder, a: seq<Dirent12>, b: seq<Dirent12>)
    requires Short(a) && Short(b) && a != []
    ensures EncodeAll(order, a + b) == EncodeAll(order, a) + EncodeAll(order, b)
    decreases a, 0
  {
    hide EncodeAll, Encode12;
    var s, t := a + b, a[1..];
    assert s[0] == a[0] && s[1..] == t + b;
    EncodeAllCons(order, a);
    EncodeAllCons(order, s);
    EncodeAllAppend(order, t, b);
    Associates(Encode12(order, a[0]), EncodeAll(order, t), EncodeAll(order, b));
  }

  lemma Associates(x: seq<byte>, y: seq<byte>, z: seq<byte>)
    ensures x + (y + z) == x + y + z
  {
  }

  // ---- the output is a well-formed old directory stream --------------------

  /** What a program reading the old format sees at the front of `s`. */
  function Decode12(order: ByteOrder, s: seq<byte>): Option<(Dirent12, nat)> {
    if |s| < OLD_NAME_OFF then None
    else
      var reclen := Load(order, s[4..6]);
      if reclen > |s| || OLD_NAME_OFF + s[7] + 1 > reclen then None
      else Some((Dirent12(Load(order, s[..4]), s[6], s[OLD_NAME_OFF..OLD_NAME_OFF + s[7]]), reclen))
  }

  function DecodeAll(order: ByteOrder, s: seq<byte>): Option<seq<Dirent12>> {
    if s == [] then Some([])
    else
      match Decode12(order, s)
      case None => None
      case Some((d, reclen)) =>
        if reclen == 0 then None else
        match DecodeAll(order, s[reclen..])
        case None => None
        case Some(ds) => Some([d] + ds)
  }

  predicate Fits32(ds: seq<Dirent12>) {
    forall i :: 0 <= i < |ds| ==> ds[i].fileno < 0x1_0000_0000
  }

  lemma Parts(a: seq<byte>, b: seq<byte>, t: byte, n: byte, name: seq<byte>, tail: seq<byte>)
    requires |a| == 4 && |b| == 2 && |name| == n
    ensures var s := a + b + [t] + [n] + name + tail;
            && s[..4] == a && s[4..6] == b && s[6] == t && s[7] == n
            && s[OLD_NAME_OFF..OLD_NAME_OFF + n] == name
  {
    var s := a + b + [t] + [n] + name + tail;
    assert s == a + (b + [t] + [n] + name + tail);
    assert s == (a + b) + ([t] + [n] + name + tail);
    assert s == (a + b + [t] + [n]) + (name + tail);
  }

  lemma DecodeEncode(order: ByteOrder, d: Dirent12, rest: seq<byte>)
    requires |d.name| < OLD_NAME_SIZE && d.fileno < 0x1_0000_0000
    ensures Decode12(order, Encode12(order, d) + rest) == Some((d, OldSize(|d.name|)))
  {
    hide Store, Load, Zeros, OldSize, Pow256;
    var size := OldSize(|d.name|);
    var zeros := Zeros(size - OLD_NAME_OFF - |d.name|);
    Parts(Store(order, 4, d.fileno), Store(order, 2, size), d.dtype, |d.name|, d.name, zeros + rest);
    assert Encode12(order, d) + rest == Store(order, 4, d.fileno) + Store(order, 2, size) +
           [d.dtype] + [|d.name|] + d.name + (zeros + rest);
    LoadStore(order, 4, d.fileno);
    LoadStore(order, 2, size);
    Powers();
  }

  /** Reading back what was written gives the entries, names NUL-padded. */
  lemma {:induction false} DecodeAllEncodeAll(order: ByteOrder, ds: seq<Dirent12>)
    requires Short(ds) && Fits32(ds)
    ensures DecodeAll(order, EncodeAll(order, ds)) == Some(ds)
  {
    hide Encode12, Decode12;
    if ds != [] {
      var s, rest := EncodeAll(order, ds), EncodeAll(order, ds[1..]);
      DecodeEncode(order, ds[0], rest);
      assert s[OldSize(|ds[0].name|)..] == rest;
      DecodeAllEncodeAll(order, ds[1..]);
      assert [ds[0]] + ds[1..] == ds;
    }
  }

  // ---- one call --------------------------------------------------------------

  /** What the user gets for a list of native records. */
  function OldBytes(order: ByteOrder, rs: seq<seq<byte>>): seq<byte>
    requires AllWellFormed(order, rs)
  {
    EncodeAll(order, AllConverted(order, rs))
  }

  /** The record at hand is `r`: the pass reads its length and re-encodes it,
      into no more space than it takes. */
  lemma RecordAt(env: Env, p: Pos, r: seq<byte>)
    requires InBounds(env, p) && |r| <= p.len && WellFormed(env.order, r)
    requires env.mem[p.inp..p.inp + |r|] == r
    ensures RecLen(env, p) == |r| && |r| % NATIVE_ALIGN == 0
    ensures OldRecord(env, p) == Encode12(env.order, Converted(env.order, r))
    ensures |OldRecord(env, p)| <= |r|
  {
    hide Load, Encode12;
    var m, i := env.mem, p.inp;
    SliceOfSlice(m, i, i + |r|, RECLEN_OFF, RECLEN_OFF + 2);
    SliceOfSlice(m, i, i + |r|, NAMLEN_OFF, NAMLEN_OFF + 2);
    SliceOfSlice(m, i, i + |r|, 0, FILENO_SIZE);
    SliceOfSlice(m, i, i + |r|, NAME_OFF, NAME_OFF + |Converted(env.order, r).name|);
    assert m[i + TYPE_OFF] == r[TYPE_OFF];
    assert OldEntry(env.order, m, i) == Converted(env.order, r);
  }

  /** What an entry is converted to, from the fields of the native one. */
  lemma NativeConverted(order: ByteOrder, fileno: nat, dtype: byte, name: seq<byte>, pad: seq<byte>)
    requires fileno < 0x1_0000_0000_0000_0000 && pad != []
    requires (13 + |name| + |pad|) % 8 == 0 && 13 + |name| + |pad| < 0x1_0000
    ensures var r := NativeRecord(order, fileno, dtype, name, pad);
      WellFormed(order, r) &&
      Converted(order, r) == Dirent12(fileno % 0x1_0000_0000, dtype, if |name| <= 255 then name else name[..255])
  {
    hide Store, Load;
    var r := NativeRecord(order, fileno, dtype, name, pad);
    NativeFields(order, fileno, dtype, name, pad);
    NativeWellFormed(order, fileno, dtype, name, pad);
    assert r[13..13 + |name|] == name;
    assert |name| > 255 ==> r[13..13 + 255] == name[..255];
  }

  lemma OldBytesNil(order: ByteOrder)
    ensures OldBytes(order, []) == []
  {
  }

  lemma OldBytesCons(order: ByteOrder, rs: seq<seq<byte>>)
    requires rs != [] && AllWellFormed(order, rs)
    ensures OldBytes(order, rs) == Encode12(order, Converted(order, rs[0])) + OldBytes(order, rs[1..])
  {
    assert AllConverted(order, rs)[1..] == AllConverted(order, rs[1..]);
  }

  /** `offs` are the offsets before and after each record in the buffer. */
  ghost predicate Offsets(env: Env, p: Pos, rs: seq<seq<byte>>, offs: seq<int>) {
    && |offs| == |rs| + 1 && offs[0] == p.off
    && forall k :: 0 <= k < |rs| ==>
         offs[k + 1] == if env.cookies.Some? then env.cookies.value(p.used + k) else offs[k] + |rs[k]|
  }

  predicate In32(offs: seq<int>) {
    forall k :: 0 <= k < |offs| ==> 0 <= offs[k] < 0x1_0000_0000
  }

  lemma OffsetsTail(env: Env, p: Pos, rs: seq<seq<byte>>, offs: seq<int>)
    requires InBounds(env, p) && Offsets(env, p, rs, offs)
    requires rs != [] && RecLen(env, p) == |rs[0]| <= p.len
    ensures NextOff(env, p) == offs[1]
    ensures Offsets(env, Advance(env, p), rs[1..], offs[1..])
    ensures In32(offs[1..]) <==> 0 <= offs[1] < 0x1_0000_0000 && In32(offs[1..][1..])
  {
    hide RecLen, OldRecord;
    assert env.cookies.Some? ==> offs[0 + 1] == env.cookies.value(p.used + 0);
    var q, rest, tail := Advance(env, p), rs[1..], offs[1..];
    forall k | 0 <= k < |rest|
      ensures tail[k + 1] == if env.cookies.Some? then env.cookies.value(q.used + k) else tail[k] + |rest[k]|
    {
      var j := k + 1;
      assert q.used + k == p.used + j && tail[j] == offs[j + 1] && tail[k] == offs[j] && rest[k] == rs[j];
    }
    forall k | 0 <= k < |tail| && 0 <= offs[1] < 0x1_0000_0000 && In32(tail[1..])
      ensures 0 <= tail[k] < 0x1_0000_0000
    {
      assert k > 0 ==> tail[k] == tail[1..][k - 1];
    }
    if In32(tail) {
      assert tail[0] == offs[1];
      forall k | 0 <= k < |tail[1..]| ensures 0 <= tail[1..][k] < 0x1_0000_0000 {
        assert tail[1..][k] == tail[k + 1];
      }
    }
  }

  /** A pass over whole records: the too-big exit is not taken, and the pass
      ends normally exactly when the offsets and the user's buffer allow it;
      then every record has been delivered, in order, once. */
  lemma {:induction false} ScanTiled(env: Env, p: Pos, rs: seq<seq<byte>>, offs: seq<int>)
    requires InBounds(env, p) && AllWellFormed(env.order, rs)
    requires env.mem[p.inp..p.inp + p.len] == Flatten(rs)
    requires Offsets(env, p, rs, offs)
    requires p.resid >= p.len
    requires |p.out| <= env.room
    ensures var s := Scan(env, p);
      if !In32(offs[1..]) then s.Failed?
      else if |p.out| + |OldBytes(env.order, rs)| > env.room then s.Failed?
      else s.Stopped? && !s.short && s.p.off == offs[|rs|] && s.p.out == p.out + OldBytes(env.order, rs)
    decreases rs
  {
    hide Encode12, Converted, WellFormed, RecLen, OldRecord, OldBytes;
    if rs == [] {
      OldBytesNil(env.order);
    } else {
      var r, rest := rs[0], rs[1..];
      FirstRecord(env.mem, p.inp, p.inp + p.len, rs);
      RecordAt(env, p, r);
      OldBytesCons(env.order, rs);
      OffsetsTail(env, p, rs, offs);
      if 0 <= offs[1] < 0x1_0000_0000 && |p.out| + |OldRecord(env, p)| <= env.room {
        ScanTiled(env, Advance(env, p), rest, offs[1..]);
      }
    }
  }

  /** Where and why a pass over whole records fails: at the first record whose
      offset does not fit 32 bits, or that the user's memory does not hold. */
  lemma {:induction false} ScanFailsAt(env: Env, p: Pos, rs: seq<seq<byte>>, offs: seq<int>, k: nat)
    requires InBounds(env, p) && AllWellFormed(env.order, rs)
    requires env.mem[p.inp..p.inp + p.len] == Flatten(rs)
    requires Offsets(env, p, rs, offs) && p.resid >= p.len && |p.out| <= env.room
    requires k < |rs| && In32(offs[1..k + 1]) && |p.out| + |OldBytes(env.order, rs[..k])| <= env.room
    requires !(0 <= offs[k + 1] < 0x1_0000_0000) || |p.out| + |OldBytes(env.order, rs[..k + 1])| > env.room
    ensures var s := Scan(env, p);
      && s.Failed? && s.p.out == p.out + OldBytes(env.order, rs[..k])
      && s.error == if 0 <= offs[k + 1] < 0x1_0000_0000 then 14 else 22
    decreases rs
  {
    hide Encode12, Converted, WellFormed, RecLen, OldRecord, OldBytes, Scan, In32;
    var r, rest := rs[0], rs[1..];
    FirstRecord(env.mem, p.inp, p.inp + p.len, rs);
    RecordAt(env, p, r);
    OffsetsTail(env, p, rs, offs);
    assert rs[..k + 1][0] == r && rs[..k + 1][1..] == rest[..k];
    OldBytesCons(env.order, rs[..k + 1]);
    OldBytesNil(env.order);
    if k == 0 {
      assert rest[..0] == [] && rs[..0] == [] && p.out + [] == p.out;
      ScanStep(env, p);
    } else {
      assert rs[..k][0] == r && rs[..k][1..] == rest[..k - 1];
      OldBytesCons(env.order, rs[..k]);
      In32Tail(offs, k);
      ScanStep(env, p);
      var q := Advance(env, p);
      ScanFailsAt(env, q, rest, offs[1..], k - 1);
      Associates(p.out, Encode12(env.order, Converted(env.order, r)), OldBytes(env.order, rest[..k - 1]));
    }
  }

  lemma In32Tail(offs: seq<int>, k: nat)
    requires 1 <= k < |offs| && In32(offs[1..k + 1])
    ensures 0 <= offs[1] < 0x1_0000_0000 && In32(offs[1..][1..k])
  {
    assert offs[1..k + 1][0] == offs[1];
    forall m | 0 <= m < |offs[1..][1..k]| ensures 0 <= offs[1..][1..k][m] < 0x1_0000_0000 {
      assert offs[1..][1..k][m] == offs[1..k + 1][m + 1];
    }
  }

  lemma {:induction false} OldBytesShorter(order: ByteOrder, rs: seq<seq<byte>>)
    requires AllWellFormed(order, rs)
    ensures |OldBytes(order, rs)| <= |Flatten(rs)|
    ensures rs != [] ==> OldBytes(order, rs) != []
  {
    if rs == [] {
      OldBytesNil(order);
    } else {
      OldBytesShorter(order, rs[1..]);
      OldBytesCons(order, rs);
    }
  }

  /** VOP_READDIR, asked for the buffer's length and for cookies. */
  ghost predicate ReadsHere(d: Dir, i: nat, j: nat, count: size_t, rd: ReadResult)
    requires |d.offs| == |d.recs| + 1
  {
    Reads(d, i, j, BufLen(count), rd) && Cookies(d, i, j, rd)
  }

  /** What a call that has used `n` bytes of its count returns. */
  function Returned(count: size_t, n: nat): nat {
    RetVal(count, Int32(count.n) - n)
  }

  lemma BufLenFits(count: size_t)
    requires Int32(count.n) >= 0
    ensures BufLen(count) <= Int32(count.n)
  {
    hide Int32;
    Int32NonNegative(count.n);
  }

  /** Below 2 GB, or no more than 2 GB short of what size_t cannot hold. */
  predicate Ranged(count: size_t) {
    count.n < 0x8000_0000 || count.n >= Mod(count.word) - 0x8000_0000
  }

  /** The number returned is the number of bytes given if and only if the count is
      in that range. */
  lemma ReturnedRightIff(count: size_t, n: nat)
    requires n <= MAXBSIZE
    ensures Returned(count, n) == n <==> Ranged(count)
  {
    var m, c := Mod(count.word), count.n;
    var k := Int32Offset(c);
    assert c - (Int32(c) - n) == k * 0x1_0000_0000 + n;
    assert k == (c + 0x8000_0000) / 0x1_0000_0000 by { assert -0x8000_0000 <= Int32(c) < 0x8000_0000; }
    if k * 0x1_0000_0000 == m {
      ModUnique(m + n, m, 1, n);
    } else {
      ModUnique(k * 0x1_0000_0000 + n, m, 0, k * 0x1_0000_0000 + n);
    }
  }

  /** One call: with whole records i..j in the buffer and a count that as an int is
      not negative, either all of them are delivered and the offset moves just past
      the last, or the call fails. */
  lemma CallDelivers(order: ByteOrder, d: Dir, i: nat, j: nat, count: size_t, rd: ReadResult,
                     junk: seq<byte>, room: nat)
    requires ValidDir(order, d) && ReadsHere(d, i, j, count, rd) && Adequate(count, rd, junk)
    requires Int32(count.n) >= 0
    ensures var c := Call(order, d.offs[i], count, rd, junk, room);
            var all := OldBytes(order, d.recs[i..j]);
            if In32(d.offs[i + 1..j + 1]) && |all| <= room then c == Done(Returned(count, |all|), all, d.offs[j])
            else c.Error?
  {
    hide Encode12, Converted, WellFormed, RecLen, OldRecord, OldBytes, Scan, Int32, RetVal;
    var rs, offs := d.recs[i..j], d.offs[i..j + 1];
    if i < j {
      var env := Env(order, Memory(rd.data, junk), rd.cookies, room);
      var p := Pos(0, |rd.data|, Int32(count.n), d.offs[i], 0, []);
      WholeBuffer(order, d, i, j, count, rd, junk, room);
      BufLenFits(count);
      ScanTiled(env, p, rs, offs);
      ScanMoves(env, p);
      OldBytesShorter(order, rs);
      assert offs[1..] == d.offs[i + 1..j + 1] && offs[|rs|] == d.offs[j];
      assert [] + OldBytes(order, rs) == OldBytes(order, rs);
    } else {
      assert rs == [];
      OldBytesNil(order);
    }
  }

  lemma WholeBuffer(order: ByteOrder, d: Dir, i: nat, j: nat, count: size_t, rd: ReadResult,
                    junk: seq<byte>, room: nat)
    requires ValidDir(order, d) && ReadsHere(d, i, j, count, rd) && Adequate(count, rd, junk)
    requires i < j
    ensures rd.data != []
    ensures var env := Env(order, Memory(rd.data, junk), rd.cookies, room);
            var p := Pos(0, |rd.data|, Int32(count.n), d.offs[i], 0, []);
            InBounds(env, p) && AllWellFormed(order, d.recs[i..j]) &&
            env.mem[..p.len] == Flatten(d.recs[i..j]) && Offsets(env, p, d.recs[i..j], d.offs[i..j + 1])
  {
    var rs, offs := d.recs[i..j], d.offs[i..j + 1];
    assert rs[0] == d.recs[i] && WellFormed(order, d.recs[i]);
    var env := Env(order, Memory(rd.data, junk), rd.cookies, room);
    var p := Pos(0, |rd.data|, Int32(count.n), d.offs[i], 0, []);
    forall k | 0 <= k < |rs|
      ensures offs[k + 1] == if env.cookies.Some? then env.cookies.value(p.used + k) else offs[k] + |rs[k]|
    {
      assert rs[k] == d.recs[i + k] && offs[k] == d.offs[i + k] && offs[k + 1] == d.offs[i + 1 + k];
      assert !d.cookies ==> d.offs[(i + k) + 1] == d.offs[i + k] + |d.recs[i + k]|;
    }
  }

  /** Where and why a call fails, and what it has stored till then. */
  lemma CallFailsAt(order: ByteOrder, d: Dir, i: nat, j: nat, count: size_t, rd: ReadResult,
                    junk: seq<byte>, room: nat, k: nat)
    requires ValidDir(order, d) && ReadsHere(d, i, j, count, rd) && Adequate(count, rd, junk)
    requires Int32(count.n) >= 0 && i <= k < j
    requires In32(d.offs[i + 1..k + 1]) && |OldBytes(order, d.recs[i..k])| <= room
    requires !(0 <= d.offs[k + 1] < 0x1_0000_0000) || |OldBytes(order, d.recs[i..k + 1])| > room
    ensures Call(order, d.offs[i], count, rd, junk, room) ==
            Error(if 0 <= d.offs[k + 1] < 0x1_0000_0000 then 14 else 22, OldBytes(order, d.recs[i..k]))
  {
    hide Encode12, Converted, WellFormed, RecLen, OldRecord, OldBytes, Scan, Int32, RetVal;
    var rs, offs := d.recs[i..j], d.offs[i..j + 1];
    var env := Env(order, Memory(rd.data, junk), rd.cookies, room);
    var p := Pos(0, |rd.data|, Int32(count.n), d.offs[i], 0, []);
    WholeBuffer(order, d, i, j, count, rd, junk, room);
    BufLenFits(count);
    assert rs[..k - i] == d.recs[i..k] && rs[..k - i + 1] == d.recs[i..k + 1];
    assert offs[1..k - i + 1] == d.offs[i + 1..k + 1];
    ScanFailsAt(env, p, rs, offs, k - i);
    assert [] + OldBytes(order, d.recs[i..k]) == OldBytes(order, d.recs[i..k]);
  }

  /** `resid` is a 32-bit int: a count that makes it negative, such as 2 GB, takes
      the too-big exit at once, and the first entry is skipped. */
  lemma HugeCountLosesEntry(order: ByteOrder, d: Dir, i: nat, j: nat, count: size_t, rd: ReadResult,
                            junk: seq<byte>, room: nat)
    requires ValidDir(order, d) && ReadsHere(d, i, j, count, rd) && Adequate(count, rd, junk)
    requires i < j && 0 <= d.offs[i + 1] < 0x1_0000_0000
    requires Int32(count.n) < 0
    ensures Call(order, d.offs[i], count, rd, junk, room) == Done(Returned(count, 0), [], d.offs[i + 1])
  {
    hide Encode12, Converted, WellFormed, RecLen, OldRecord, OldBytes, Advance, Memory, Int32, RetVal;
    var env := Env(order, Memory(rd.data, junk), rd.cookies, room);
    var p := Pos(0, |rd.data|, Int32(count.n), d.offs[i], 0, []);
    WholeBuffer(order, d, i, j, count, rd, junk, room);
    FirstRecord(env.mem, 0, p.len, d.recs[i..j]);
    RecordAt(env, p, d.recs[i..j][0]);
    OffsetsTail(env, p, d.recs[i..j], d.offs[i..j + 1]);
    assert p.resid < 0;
  }

  /** So a call that has room and representable offsets delivers what it read if
      and only if its count is not negative as an int; it also returns how much
      that is if and only if the count is below 2 GB. */
  lemma DeliversIffCountFits(order: ByteOrder, d: Dir, i: nat, j: nat, count: size_t, rd: ReadResult,
                             junk: seq<byte>, room: nat)
    requires ValidDir(order, d) && ReadsHere(d, i, j, count, rd) && Adequate(count, rd, junk)
    requires i < j && In32(d.offs[i + 1..j + 1]) && |OldBytes(order, d.recs[i..j])| <= room
    ensures var c := Call(order, d.offs[i], count, rd, junk, room);
            var all := OldBytes(order, d.recs[i..j]);
            && ((exists r :: c == Done(r, all, d.offs[j])) <==> Int32(count.n) >= 0)
            && (c == Done(|all|, all, d.offs[j]) <==> count.n < 0x8000_0000)
  {
    hide OldBytes, Call, Returned, Int32, WellFormed;
    OldBytesShorter(order, d.recs[i..j]);
    IntRange(count);
    ReturnedRightIff(count, |OldBytes(order, d.recs[i..j])|);
    if Int32(count.n) >= 0 {
      CallDelivers(order, d, i, j, count, rd, junk, room);
    } else {
      assert d.offs[i + 1..j + 1][0] == d.offs[i + 1];
      HugeCountLosesEntry(order, d, i, j, count, rd, junk, room);
    }
  }

  lemma IntRange(count: size_t)
    ensures count.n < 0x8000_0000 ==> Int32(count.n) == count.n
    ensures count.n >= 0x8000_0000 && Ranged(count) ==> Int32(count.n) < 0
  {
  }

  /** At the end of the directory the call returns 0 under the same condition. */
  lemma EndReturnsZeroIff(order: ByteOrder, off: int, count: size_t, rd: ReadResult, junk: seq<byte>, room: nat)
    requires Adequate(count, rd, junk) && rd.error == 0 && rd.data == []
    ensures Call(order, off, count, rd, junk, room) == Done(0, [], off) <==> Ranged(count)
  {
    hide RetVal;
    ReturnedRightIff(count, 0);
  }

  // ---- any run of calls --------------------------------------------------------

  /** One call as the program and the file system make it. */
  datatype Req = Req(count: size_t, rd: ReadResult, junk: seq<byte>, room: nat)

  function Outcome1(order: ByteOrder, off: int, c: Req): Outcome
    requires Adequate(c.count, c.rd, c.junk)
  {
    Call(order, off, c.count, c.rd, c.junk, c.room)
  }

  /** f_offset after the call. */
  function After(order: ByteOrder, off: int, c: Req): int
    requires Adequate(c.count, c.rd, c.junk)
  {
    match Outcome1(order, off, c)
    case Done(_, _, o) => o
    case Error(_, _) => off
    case Panic => off
  }

  /** What the program got from it; a failed call gives nothing. */
  function Got(order: ByteOrder, off: int, c: Req): seq<byte>
    requires Adequate(c.count, c.rd, c.junk)
  {
    match Outcome1(order, off, c)
    case Done(_, out, _) => out
    case Error(_, _) => []
    case Panic => []
  }

  /** The file system keeps its contract at every call, whatever fails. */
  ghost predicate Legal(order: ByteOrder, d: Dir, off: int, cs: seq<Req>)
    requires |d.offs| == |d.recs| + 1
    decreases cs
  {
    cs != [] ==>
      && Adequate(cs[0].count, cs[0].rd, cs[0].junk)
      && (cs[0].rd.error != 0 || exists i: nat, j: nat :: ReadsHere(d, i, j, cs[0].count, cs[0].rd) && d.offs[i] == off)
      && Legal(order, d, After(order, off, cs[0]), cs[1..])
  }

  function RunOff(order: ByteOrder, d: Dir, off: int, cs: seq<Req>): int
    requires |d.offs| == |d.recs| + 1 && Legal(order, d, off, cs)
    decreases cs
  {
    if cs == [] then off else RunOff(order, d, After(order, off, cs[0]), cs[1..])
  }

  function RunGot(order: ByteOrder, d: Dir, off: int, cs: seq<Req>): seq<byte>
    requires |d.offs| == |d.recs| + 1 && Legal(order, d, off, cs)
    decreases cs
  {
    if cs == [] then []
    else Got(order, off, cs[0]) + RunGot(order, d, After(order, off, cs[0]), cs[1..])
  }

  /** Every call succeeds and has room for any record. */
  predicate Smooth(order: ByteOrder, d: Dir, off: int, cs: seq<Req>)
    requires |d.offs| == |d.recs| + 1 && Legal(order, d, off, cs)
    decreases cs
  {
    cs != [] ==>
      && Outcome1(order, off, cs[0]).Done?
      && (forall k :: 0 <= k < |d.recs| ==>
            |d.recs[k]| <= 0x1_0000 && |d.recs[k]| <= cs[0].count.n % 0x1_0000_0000)
      && Smooth(order, d, After(order, off, cs[0]), cs[1..])
  }

  /** A call that cannot skip an entry: its count is not negative as an int, or it
      leaves the file where it was. */
  predicate Keeps(order: ByteOrder, off: int, c: Req)
    requires Adequate(c.count, c.rd, c.junk)
  {
    Int32(c.count.n) >= 0 || After(order, off, c) == off
  }

  predicate AllKeep(order: ByteOrder, d: Dir, off: int, cs: seq<Req>)
    requires |d.offs| == |d.recs| + 1 && Legal(order, d, off, cs)
    decreases cs
  {
    cs != [] ==> Keeps(order, off, cs[0]) && AllKeep(order, d, After(order, off, cs[0]), cs[1..])
  }

  /** A call that succeeds returns the number of bytes it gave. */
  predicate Reports(order: ByteOrder, off: int, c: Req)
    requires Adequate(c.count, c.rd, c.junk)
  {
    var o := Outcome1(order, off, c);
    o.Done? ==> o.retval == |o.out|
  }

  predicate AllReport(order: ByteOrder, d: Dir, off: int, cs: seq<Req>)
    requires |d.offs| == |d.recs| + 1 && Legal(order, d, off, cs)
    decreases cs
  {
    cs != [] ==> Reports(order, off, cs[0]) && AllReport(order, d, After(order, off, cs[0]), cs[1..])
  }

  /** Every call that succeeds has a count in range. */
  predicate AllRanged(order: ByteOrder, d: Dir, off: int, cs: seq<Req>)
    requires |d.offs| == |d.recs| + 1 && Legal(order, d, off, cs)
    decreases cs
  {
    cs != [] ==>
      && (Outcome1(order, off, cs[0]).Done? ==> Ranged(cs[0].count))
      && AllRanged(order, d, After(order, off, cs[0]), cs[1..])
  }

  /** A call with a negative count: an entry skipped, an error, or the end. */
  lemma NegativeStep(order: ByteOrder, d: Dir, i: nat, b: nat, c: Req)
    requires ValidDir(order, d) && ReadsHere(d, i, b, c.count, c.rd) && Adequate(c.count, c.rd, c.junk)
    requires Int32(c.count.n) < 0
    ensures var o := Outcome1(order, d.offs[i], c);
      if i == b then o == Done(Returned(c.count, 0), [], d.offs[i])
      else if 0 <= d.offs[i + 1] < 0x1_0000_0000 then o == Done(Returned(c.count, 0), [], d.offs[i + 1])
      else o.Error?
  {
    hide Encode12, Converted, WellFormed, RecLen, OldRecord, OldBytes, Advance, Memory, Int32, RetVal;
    if i < b {
      if 0 <= d.offs[i + 1] < 0x1_0000_0000 {
        HugeCountLosesEntry(order, d, i, b, c.count, c.rd, c.junk, c.room);
      } else {
        var env := Env(order, Memory(c.rd.data, c.junk), c.rd.cookies, c.room);
        var p := Pos(0, |c.rd.data|, Int32(c.count.n), d.offs[i], 0, []);
        WholeBuffer(order, d, i, b, c.count, c.rd, c.junk, c.room);
        FirstRecord(env.mem, 0, p.len, d.recs[i..b]);
        RecordAt(env, p, d.recs[i..b][0]);
        OffsetsTail(env, p, d.recs[i..b], d.offs[i..b + 1]);
      }
    } else {
      assert d.recs[i..b] == [];
    }
  }

  /** One call moves from entry `i` to `j`; it gives the entries between if it
      keeps them, and nothing otherwise. */
  lemma OneStep(order: ByteOrder, d: Dir, i: nat, c: Req) returns (j: nat)
    requires ValidDir(order, d) && i <= |d.recs| && Legal(order, d, d.offs[i], [c])
    ensures i <= j <= |d.recs|
    ensures After(order, d.offs[i], c) == d.offs[j]
    ensures if Keeps(order, d.offs[i], c) then Got(order, d.offs[i], c) == OldBytes(order, d.recs[i..j])
            else i < j && Got(order, d.offs[i], c) == []
    ensures Reports(order, d.offs[i], c) <==> (Outcome1(order, d.offs[i], c).Done? ==> Ranged(c.count))
    ensures (Outcome1(order, d.offs[i], c).Done? && i < |d.recs| &&
             |d.recs[i]| <= 0x1_0000 && |d.recs[i]| <= c.count.n % 0x1_0000_0000) ==> i < j
  {
    hide Scan, Memory, OldBytes, WellFormed, Call, Int32, BufLen, Returned, Ranged;
    assert [c][0] == c;
    ReturnedRightIff(c.count, 0);
    OldBytesNil(order);
    assert d.recs[i..i] == [];
    if c.rd.error != 0 {
      ReadFails(order, d.offs[i], c);
      j := i;
    } else {
      var a: nat, b: nat :| ReadsHere(d, a, b, c.count, c.rd) && d.offs[a] == d.offs[i];
      assert a == i;
      if Int32(c.count.n) >= 0 {
        CallDelivers(order, d, i, b, c.count, c.rd, c.junk, c.room);
        OldBytesShorter(order, d.recs[i..b]);
        assert |OldBytes(order, d.recs[i..b])| <= MAXBSIZE;
        ReturnedRightIff(c.count, |OldBytes(order, d.recs[i..b])|);
        j := if Outcome1(order, d.offs[i], c).Done? then b else i;
      } else {
        NegativeStep(order, d, i, b, c);
        j := if i < b && Outcome1(order, d.offs[i], c).Done? then i + 1 else i;
      }
    }
  }

  lemma ReadFails(order: ByteOrder, off: int, c: Req)
    requires Adequate(c.count, c.rd, c.junk) && c.rd.error != 0
    ensures Outcome1(order, off, c) == Error(c.rd.error, [])
  {
  }

  /** Whole runs, whatever calls are made and whichever fail: the file moves from
      entry `i` to `j`, and the program has received exactly the converted entries
      between, in order, each once, if and only if no call skipped one; every call
      that succeeds returns the length of what it gave if and only if the counts
      are in range.  Counts below 2 GB are enough for both.  Calls that succeed
      with room reach the end. */
  lemma {:induction false} WholeRun(order: ByteOrder, d: Dir, i: nat, cs: seq<Req>) returns (j: nat)
    requires ValidDir(order, d) && i <= |d.recs| && Legal(order, d, d.offs[i], cs)
    ensures i <= j <= |d.recs|
    ensures RunOff(order, d, d.offs[i], cs) == d.offs[j]
    ensures AllKeep(order, d, d.offs[i], cs) <==> RunGot(order, d, d.offs[i], cs) == OldBytes(order, d.recs[i..j])
    ensures |RunGot(order, d, d.offs[i], cs)| <= |OldBytes(order, d.recs[i..j])|
    ensures AllReport(order, d, d.offs[i], cs) <==> AllRanged(order, d, d.offs[i], cs)
    ensures Smooth(order, d, d.offs[i], cs) && |cs| >= |d.recs| - i ==> j == |d.recs|
    decreases cs
  {
    hide OldBytes, After, Got, Keeps, Reports, Ranged, Outcome1, BufLen, WellFormed, ReadsHere, Adequate;
    if cs == [] {
      j := i;
      assert d.recs[i..i] == [];
      OldBytesNil(order);
    } else {
      var k := OneStep(order, d, i, cs[0]);
      j := WholeRun(order, d, k, cs[1..]);
      OldBytesSplit(order, d, i, k, j);
      OldBytesShorter(order, d.recs[i..k]);
      Cancel(Got(order, d.offs[i], cs[0]), RunGot(order, d, d.offs[k], cs[1..]), OldBytes(order, d.recs[k..j]));
    }
  }

  lemma Cancel(a: seq<byte>, b: seq<byte>, c: seq<byte>)
    ensures a + b == a + c <==> b == c
  {
    assert (a + b)[|a|..] == b && (a + c)[|a|..] == c;
  }

  lemma {:induction false} SmallCounts(order: ByteOrder, d: Dir, off: int, cs: seq<Req>)
    requires |d.offs| == |d.recs| + 1 && Legal(order, d, off, cs)
    requires forall k :: 0 <= k < |cs| ==> cs[k].count.n < 0x8000_0000
    ensures AllKeep(order, d, off, cs) && AllRanged(order, d, off, cs)
    decreases cs
  {
    hide After, Outcome1, Int32;
    if cs != [] {
      IntRange(cs[0].count);
      assert forall k :: 0 <= k < |cs[1..]| ==> cs[1..][k] == cs[k + 1];
      SmallCounts(order, d, After(order, off, cs[0]), cs[1..]);
    }
  }

  lemma OldBytesSplit(order: ByteOrder, d: Dir, i: nat, k: nat, j: nat)
    requires ValidDir(order, d) && i <= k <= j <= |d.recs|
    ensures OldBytes(order, d.recs[i..k]) + OldBytes(order, d.recs[k..j]) == OldBytes(order, d.recs[i..j])
  {
    hide Converted, WellFormed, EncodeAll;
    var a, b, c := d.recs[i..k], d.recs[k..j], d.recs[i..j];
    assert c == a + b;
    assert AllConverted(order, c) == AllConverted(order, a) + AllConverted(order, b);
    EncodeAllAppend(order, AllConverted(order, a), AllConverted(order, b));
  }

  /** And that byte stream reads back as the converted entries. */
  lemma RunReadsBack(order: ByteOrder, d: Dir, i: nat, j: nat)
    requires ValidDir(order, d) && i <= j <= |d.recs|
    ensures DecodeAll(order, OldBytes(order, d.recs[i..j])) == Some(AllConverted(order, d.recs[i..j]))
  {
    DecodeAllEncodeAll(order, AllConverted(order, d.recs[i..j]));
  }
}
