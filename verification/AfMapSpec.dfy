/** The value-level meaning of the ATM flow map: a chain of per-interface
    buckets, newest first, each holding wildcard rules, newest first. */
module AfMapSpec {
  import opened Kernel

  const AF_INET := 2
  const FLOWINFO_IN_SIZE := 48

  /** The meaningful fields of struct flowinfo_in; zero is the wildcard. */
  datatype Flow = Flow(len: nat, family: nat, proto: nat, tos: nat, dst: nat, src: nat,
                       dport: nat, sport: nat, gpi: nat)

  datatype Rule = Rule(vpi: nat, vci: nat, flow: Flow)

  /** `ifp` is the identity of the interface. */
  datatype Bucket = Bucket(ifp: nat, rules: seq<Rule>)

  type Table = seq<Bucket>

  /** Index of the newest bucket of `ifp`, or |t|. */
  function Find(t: Table, ifp: nat): (k: nat)
    ensures k <= |t|
    ensures k < |t| ==> t[k].ifp == ifp
    ensures forall j :: 0 <= j < k ==> t[j].ifp != ifp
  {
    if t == [] then 0 else if t[0].ifp == ifp then 0 else 1 + Find(t[1..], ifp)
  }

  lemma FindUnique(t: Table, ifp: nat, k: nat)
    requires k <= |t|
    requires k < |t| ==> t[k].ifp == ifp
    requires forall j :: 0 <= j < k ==> t[j].ifp != ifp
    ensures Find(t, ifp) == k
  {
  }

  function Alloc(t: Table, ifp: nat): Table {
    [Bucket(ifp, [])] + t
  }

  function Dealloc(t: Table, ifp: nat): Table {
    var k := Find(t, ifp);
    if k == |t| then t else t[..k] + t[k + 1..]
  }

  function SetRules(t: Table, k: nat, rules: seq<Rule>): Table
    requires k < |t|
  {
    t[k := t[k].(rules := rules)]
  }

  function Add(t: Table, ifp: nat, r: Rule): Table {
    var k := Find(t, ifp);
    if k == |t| then t else SetRules(t, k, [r] + t[k].rules)
  }

  function RemoveAll(t: Table, ifp: nat): Table {
    var k := Find(t, ifp);
    if k == |t| then t else SetRules(t, k, [])
  }

  function Without<T>(s: seq<T>, k: nat): seq<T>
    requires k < |s|
  {
    s[..k] + s[k + 1..]
  }

  lemma WithoutMembers<T>(s: seq<T>, k: nat)
    requires k < |s|
    ensures forall x :: x in Without(s, k) ==> x in s
    ensures forall x :: x in s && x != s[k] ==> x in Without(s, k)
    ensures (forall i :: 0 <= i < |s| && i != k ==> s[i] != s[k]) ==> s[k] !in Without(s, k)
  {
    forall x | x in s && x != s[k] ensures x in Without(s, k) {
      var i :| 0 <= i < |s| && s[i] == x;
      assert Without(s, k)[if i < k then i else i - 1] == x;
    }
  }

  lemma WithoutDistinct<T>(s: seq<T>, k: nat)
    requires k < |s| && forall i, j :: 0 <= i < j < |s| ==> s[i] != s[j]
    ensures var w := Without(s, k); forall i, j :: 0 <= i < j < |w| ==> w[i] != w[j]
  {
    var w := Without(s, k);
    forall i, j | 0 <= i < j < |w| ensures w[i] != w[j] {
      assert w[i] == s[if i < k then i else i + 1] && w[j] == s[if j < k then j else j + 1];
    }
  }

  /** afm_remove takes a pointer: the rule at position `k` of bucket `i`,
      which may be hidden behind a newer bucket of the same interface. */
  function RemoveAt(t: Table, i: nat, k: nat): Table
    requires i < |t| && k < |t[i].rules|
  {
    SetRules(t, i, Without(t[i].rules, k))
  }

  /** Every nonzero field of the rule equals the flow's. */
  predicate Matches(r: Rule, f: Flow) {
    && (r.flow.dst == 0 || r.flow.dst == f.dst)
    && (r.flow.dport == 0 || r.flow.dport == f.dport)
    && (r.flow.src == 0 || r.flow.src == f.src)
    && (r.flow.sport == 0 || r.flow.sport == f.sport)
    && (r.flow.proto == 0 || r.flow.proto == f.proto)
  }

  /** The fields a rule is matched on: addresses, ports and protocol. */
  function Fields(f: Flow): seq<nat> {
    [f.dst, f.src, f.dport, f.sport, f.proto]
  }

  /** A rule with its wildcards filled in from the flow is the flow, and none of
      the other fields count. */
  lemma MatchesFields(r: Rule, f: Flow)
    ensures Matches(r, f) <==>
            forall i :: 0 <= i < 5 ==> Fields(r.flow)[i] == 0 || Fields(r.flow)[i] == Fields(f)[i]
  {
    assert Fields(r.flow)[0] == r.flow.dst && Fields(r.flow)[1] == r.flow.src && Fields(r.flow)[2] == r.flow.dport;
    assert Fields(r.flow)[3] == r.flow.sport && Fields(r.flow)[4] == r.flow.proto;
    assert Fields(f) == [f.dst, f.src, f.dport, f.sport, f.proto];
  }

  /** The rule sequence afm_* calls see for `ifp`. */
  function Visible(t: Table, ifp: nat): seq<Rule> {
    var k := Find(t, ifp);
    if k == |t| then [] else t[k].rules
  }

  /** The declarative meaning of a match: the newest visible rule that
      matches, None exactly when there is none. */
  ghost predicate IsMatch(rules: seq<Rule>, f: Flow, m: Option<Rule>) {
    match m
    case None => forall k :: 0 <= k < |rules| ==> !Matches(rules[k], f)
    case Some(r) =>
      exists k :: 0 <= k < |rules| && rules[k] == r && Matches(r, f) &&
                  forall j :: 0 <= j < k ==> !Matches(rules[j], f)
  }

  lemma MatchUnique(rules: seq<Rule>, f: Flow, m: Option<Rule>, n: Option<Rule>)
    requires IsMatch(rules, f, m) && IsMatch(rules, f, n)
    ensures m == n
  {
    if m.Some? && n.Some? {
      var i :| 0 <= i < |rules| && rules[i] == m.value && Matches(m.value, f) &&
               forall j :: 0 <= j < i ==> !Matches(rules[j], f);
      var k :| 0 <= k < |rules| && rules[k] == n.value && Matches(n.value, f) &&
               forall j :: 0 <= j < k ==> !Matches(rules[j], f);
      assert i == k;
    }
  }

  function FirstMatch(rules: seq<Rule>, f: Flow): (m: Option<Rule>)
  {
    if rules == [] then None
    else if Matches(rules[0], f) then Some(rules[0])
    else FirstMatch(rules[1..], f)
  }

  lemma {:induction false} FirstMatchIsMatch(rules: seq<Rule>, f: Flow)
    ensures IsMatch(rules, f, FirstMatch(rules, f))
  {
    if rules != [] && !Matches(rules[0], f) {
      FirstMatchIsMatch(rules[1..], f);
      var m := FirstMatch(rules[1..], f);
      match m
      case None =>
        forall k | 0 <= k < |rules| ensures !Matches(rules[k], f) {
          if k > 0 { assert rules[k] == rules[1..][k - 1]; }
        }
      case Some(r) =>
        var k :| 0 <= k < |rules[1..]| && rules[1..][k] == r && Matches(r, f) &&
                 forall j :: 0 <= j < k ==> !Matches(rules[1..][j], f);
        forall j | 0 <= j < k + 1 ensures !Matches(rules[j], f) {
          if j > 0 { assert rules[j] == rules[1..][j - 1]; }
        }
        assert rules[k + 1] == r;
    }
  }

  /** Index of the newest rule that matches, or |rules|. */
  function FindMatch(rules: seq<Rule>, f: Flow): (k: nat)
    ensures k <= |rules|
    ensures k < |rules| ==> Matches(rules[k], f)
    ensures forall j :: 0 <= j < k ==> !Matches(rules[j], f)
    ensures FirstMatch(rules, f) == if k < |rules| then Some(rules[k]) else None
  {
    if rules == [] || Matches(rules[0], f) then 0 else 1 + FindMatch(rules[1..], f)
  }

  lemma FindMatchUnique(rules: seq<Rule>, f: Flow, k: nat)
    requires k <= |rules|
    requires k < |rules| ==> Matches(rules[k], f)
    requires forall j :: 0 <= j < k ==> !Matches(rules[j], f)
    ensures FindMatch(rules, f) == k
  {
  }

  /** Index of the newest rule with this vpi and vci, or |rules|. */
  function FindVc(rules: seq<Rule>, vpi: int, vci: int): (k: nat)
    ensures k <= |rules|
    ensures k < |rules| ==> rules[k].vpi == vpi && rules[k].vci == vci
    ensures forall j :: 0 <= j < k ==> rules[j].vpi != vpi || rules[j].vci != vci
  {
    if rules == [] || (rules[0].vpi == vpi && rules[0].vci == vci) then 0
    else 1 + FindVc(rules[1..], vpi, vci)
  }

  lemma FindVcUnique(rules: seq<Rule>, vpi: int, vci: int, k: nat)
    requires k <= |rules|
    requires k < |rules| ==> rules[k].vpi == vpi && rules[k].vci == vci
    requires forall j :: 0 <= j < k ==> rules[j].vpi != vpi || rules[j].vci != vci
    ensures FindVc(rules, vpi, vci) == k
  {
  }

  /** After afm_add(r): r when it matches, otherwise the answer given before. */
  lemma AddThenMatch(t: Table, ifp: nat, r: Rule, f: Flow)
    requires Find(t, ifp) < |t|
    ensures FirstMatch(Visible(Add(t, ifp, r), ifp), f) ==
            if Matches(r, f) then Some(r) else FirstMatch(Visible(t, ifp), f)
  {
    var k := Find(t, ifp);
    FindUnique(Add(t, ifp, r), ifp, k);
    assert ([r] + t[k].rules)[1..] == t[k].rules;
  }

  // ---- the per-interface stacks the chain implements -------------------

  /** The rule lists of `ifp`, newest bucket first: only the top one is
      visible, the others are shadowed. */
  function Stack(t: Table, ifp: nat): seq<seq<Rule>> {
    if t == [] then []
    else if t[0].ifp == ifp then [t[0].rules] + Stack(t[1..], ifp)
    else Stack(t[1..], ifp)
  }

  /** Position in its interface's stack of bucket `i`. */
  function Depth(t: Table, i: nat): (d: nat)
    requires i < |t|
    ensures d < |Stack(t, t[i].ifp)| && Stack(t, t[i].ifp)[d] == t[i].rules
  {
    if i == 0 then 0
    else (if t[0].ifp == t[i].ifp then 1 else 0) + Depth(t[1..], i - 1)
  }

  lemma {:induction false} StackOfSet(t: Table, i: nat, rules: seq<Rule>, ifp: nat)
    requires i < |t|
    ensures Stack(SetRules(t, i, rules), ifp) ==
            if ifp == t[i].ifp then Stack(t, ifp)[Depth(t, i) := rules] else Stack(t, ifp)
  {
    var u := SetRules(t, i, rules);
    if i == 0 {
      assert u[1..] == t[1..];
    } else {
      assert u[1..] == SetRules(t[1..], i - 1, rules);
      StackOfSet(t[1..], i - 1, rules, ifp);
    }
  }

  lemma {:induction false} TopOfStack(t: Table, ifp: nat)
    ensures Find(t, ifp) == |t| <==> Stack(t, ifp) == []
    ensures Find(t, ifp) < |t| ==> Depth(t, Find(t, ifp)) == 0
    ensures Find(t, ifp) < |t| ==> Stack(t, ifp)[0] == Visible(t, ifp)
  {
    if t != [] && t[0].ifp != ifp {
      TopOfStack(t[1..], ifp);
    }
  }

  lemma {:induction false} StackOfDealloc(t: Table, ifp: nat, other: nat)
    ensures Stack(Dealloc(t, ifp), other) ==
            if other == ifp && Stack(t, ifp) != [] then Stack(t, ifp)[1..] else Stack(t, other)
  {
    if t != [] {
      if t[0].ifp == ifp {
        assert Dealloc(t, ifp) == t[1..];
      } else {
        StackOfDealloc(t[1..], ifp, other);
        if Find(t, ifp) < |t| {
          assert Dealloc(t, ifp)[0] == t[0];
          assert Dealloc(t, ifp)[1..] == Dealloc(t[1..], ifp);
        }
      }
    }
  }

  /** One list-changing call.  OpRemove names the rule by bucket and position,
      as the pointer argument does. */
  datatype Op =
    | OpAlloc(ifp: nat)
    | OpDealloc(ifp: nat)
    | OpAdd(ifp: nat, rule: Rule)
    | OpRemove(bucket: nat, pos: nat)
    | OpRemoveAll(ifp: nat)

  predicate Applicable(t: Table, op: Op) {
    op.OpRemove? ==> op.bucket < |t| && op.pos < |t[op.bucket].rules|
  }

  function Step(t: Table, op: Op): Table
    requires Applicable(t, op)
  {
    match op
    case OpAlloc(ifp) => Alloc(t, ifp)
    case OpDealloc(ifp) => Dealloc(t, ifp)
    case OpAdd(ifp, r) => Add(t, ifp, r)
    case OpRemove(i, k) => RemoveAt(t, i, k)
    case OpRemoveAll(ifp) => RemoveAll(t, ifp)
  }

  predicate RunOk(t: Table, ops: seq<Op>)
    decreases ops
  {
    ops != [] ==> Applicable(t, ops[0]) && RunOk(Step(t, ops[0]), ops[1..])
  }

  function Run(t: Table, ops: seq<Op>): Table
    requires RunOk(t, ops)
    decreases ops
  {
    if ops == [] then t else Run(Step(t, ops[0]), ops[1..])
  }

  /** What a call does to the stack of one interface, knowing only that stack. */
  datatype StackOp = Push | Pop | AddTop(rule: Rule) | RemoveIn(depth: nat, pos: nat) | ClearTop

  function StackStep(s: seq<seq<Rule>>, op: StackOp): seq<seq<Rule>> {
    match op
    case Push => [[]] + s
    case Pop => if s == [] then s else s[1..]
    case AddTop(r) => if s == [] then s else s[0 := [r] + s[0]]
    case RemoveIn(d, k) => if d < |s| && k < |s[d]| then s[d := Without(s[d], k)] else s
    case ClearTop => if s == [] then s else s[0 := []]
  }

  function StackRun(s: seq<seq<Rule>>, ops: seq<StackOp>): seq<seq<Rule>>
    decreases ops
  {
    if ops == [] then s else StackRun(StackStep(s, ops[0]), ops[1..])
  }

  /** The part of a run that concerns `ifp`, as stack operations. */
  function Project(t: Table, ops: seq<Op>, ifp: nat): seq<StackOp>
    requires RunOk(t, ops)
    decreases ops
  {
    if ops == [] then []
    else ProjectOp(t, ops[0], ifp) + Project(Step(t, ops[0]), ops[1..], ifp)
  }

  function ProjectOp(t: Table, op: Op, ifp: nat): seq<StackOp>
    requires Applicable(t, op)
  {
    match op
    case OpAlloc(i) => if i == ifp then [Push] else []
    case OpDealloc(i) => if i == ifp then [Pop] else []
    case OpAdd(i, r) => if i == ifp then [AddTop(r)] else []
    case OpRemove(b, k) => if t[b].ifp == ifp then [RemoveIn(Depth(t, b), k)] else []
    case OpRemoveAll(i) => if i == ifp then [ClearTop] else []
  }

  lemma StepRefinesStack(t: Table, op: Op, ifp: nat)
    requires Applicable(t, op)
    ensures Stack(Step(t, op), ifp) == StackRun(Stack(t, ifp), ProjectOp(t, op, ifp))
  {
    var p := ProjectOp(t, op, ifp);
    assert p != [] ==> p[1..] == [];
    match op
    case OpAlloc(i) =>
      assert Alloc(t, i)[1..] == t;
    case OpDealloc(i) =>
      StackOfDealloc(t, i, ifp);
    case OpAdd(i, r) =>
      TopOfStack(t, i);
      if Find(t, i) < |t| { StackOfSet(t, Find(t, i), [r] + Visible(t, i), ifp); }
    case OpRemove(b, k) =>
      StackOfSet(t, b, Without(t[b].rules, k), ifp);
    case OpRemoveAll(i) =>
      TopOfStack(t, i);
      if Find(t, i) < |t| { StackOfSet(t, Find(t, i), [], ifp); }
  }

  lemma {:induction false} StackRunSplit(s: seq<seq<Rule>>, a: seq<StackOp>, b: seq<StackOp>)
    ensures StackRun(s, a + b) == StackRun(StackRun(s, a), b)
    decreases a
  {
    if a == [] {
      assert a + b == b;
    } else {
      assert (a + b)[0] == a[0] && (a + b)[1..] == a[1..] + b;
      StackRunSplit(StackStep(s, a[0]), a[1..], b);
    }
  }

  /** Interfaces do not interfere: over any run of calls, what one interface
      sees depends only on its own calls. */
  lemma {:induction false} RunRefinesStacks(t: Table, ops: seq<Op>, ifp: nat)
    requires RunOk(t, ops)
    ensures Stack(Run(t, ops), ifp) == StackRun(Stack(t, ifp), Project(t, ops, ifp))
    decreases ops
  {
    if ops != [] {
      var u := Step(t, ops[0]);
      StepRefinesStack(t, ops[0], ifp);
      RunRefinesStacks(u, ops[1..], ifp);
      StackRunSplit(Stack(t, ifp), ProjectOp(t, ops[0], ifp), Project(u, ops[1..], ifp));
    }
  }

  /** A run that leaves the bottom `n` lists of a stack alone: it never pops
      them and never removes a rule inside them. */
  predicate StaysAbove(s: seq<seq<Rule>>, ops: seq<StackOp>, n: nat)
    decreases ops
  {
    ops != [] ==>
      && n <= |s|
      && (ops[0].Pop? || ops[0].AddTop? || ops[0].ClearTop? ==> n < |s|)
      && (ops[0].RemoveIn? ==> ops[0].depth < |s| - n)
      && StaysAbove(StackStep(s, ops[0]), ops[1..], n)
  }

  lemma {:induction false} StackRunKeepsBase(s: seq<seq<Rule>>, ops: seq<StackOp>, n: nat)
    requires n <= |s| && StaysAbove(s, ops, n)
    ensures n <= |StackRun(s, ops)|
    ensures var r := StackRun(s, ops); r[|r| - n..] == s[|s| - n..]
    decreases ops
  {
    hide StackStep;
    if ops != [] {
      StackStepKeepsBase(s, ops[0], n);
      StackRunKeepsBase(StackStep(s, ops[0]), ops[1..], n);
    }
  }

  lemma StackStepKeepsBase(s: seq<seq<Rule>>, op: StackOp, n: nat)
    requires n <= |s| && StaysAbove(s, [op], n)
    ensures var u := StackStep(s, op); n <= |u| && u[|u| - n..] == s[|s| - n..]
  {
    match op
    case Push => assert ([[]] + s)[|s| + 1 - n..] == s[|s| - n..];
    case Pop => assert s[1..][|s| - 1 - n..] == s[|s| - n..];
    case _ =>
  }

  /** Shadowing: afm_alloc of an interface that already has a list hides it;
      whatever run of calls on any interfaces follows, as long as it stays on
      the new list, the matching afm_dealloc brings the old list back intact. */
  lemma DeallocReveals(t: Table, ifp: nat, ops: seq<Op>)
    requires RunOk(Alloc(t, ifp), ops)
    requires StaysAbove(Stack(Alloc(t, ifp), ifp), Project(Alloc(t, ifp), ops, ifp), |Stack(t, ifp)|)
    requires |Stack(Run(Alloc(t, ifp), ops), ifp)| == |Stack(t, ifp)| + 1
    ensures Visible(Alloc(t, ifp), ifp) == []
    ensures Stack(Dealloc(Run(Alloc(t, ifp), ops), ifp), ifp) == Stack(t, ifp)
    ensures Visible(Dealloc(Run(Alloc(t, ifp), ops), ifp), ifp) == Visible(t, ifp)
  {
    hide Run, Project, StackRun, StaysAbove, Dealloc;
    var a := Alloc(t, ifp);
    var u := Run(a, ops);
    assert a[1..] == t;
    RunRefinesStacks(a, ops, ifp);
    StackRunKeepsBase(Stack(a, ifp), Project(a, ops, ifp), |Stack(t, ifp)|);
    StackOfDealloc(u, ifp, ifp);
    TopOfStack(t, ifp);
    TopOfStack(Dealloc(u, ifp), ifp);
  }
}
