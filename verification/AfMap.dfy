/** The linked structure of altq_afmap.c, kept by every operation and refined
    to an AfMapSpec.Table.  Pointers-to-pointers (le_prev) become a Link that
    names the cell pointed to. */
module AfMap {
  import opened Kernel
  import opened AfMapSpec

  /** Where an element's le_prev points: a list head, or the next field of
      the element before it. */
  datatype Link<H, E> = AtHead(head: H) | AtNext(elem: E)

  /** struct afm: one rule. */
  class Afm {
    var next: Afm?
    var prev: Link<AfmHead, Afm>
    const rule: Rule
    ghost const owner: AfmHead

    constructor (rule: Rule, head: AfmHead)
      ensures this.rule == rule && owner == head
      ensures next == null && prev == AtHead(head)
    {
      this.rule := rule;
      owner := head;
      next := null;
      prev := AtHead(head);
    }
  }

  /** The rules held by a sequence of nodes. */
  ghost function Rules(s: seq<Afm>): (v: seq<Rule>)
    ensures |v| == |s| && forall i :: 0 <= i < |s| ==> v[i] == s[i].rule
  {
    seq(|s|, i requires 0 <= i < |s| => s[i].rule)
  }

  lemma RulesChange(r: Afm, s: seq<Afm>, k: nat)
    ensures Rules([r] + s) == [r.rule] + Rules(s)
    ensures k < |s| ==> Rules(Without(s, k)) == Without(Rules(s), k)
  {
  }

  /** LIST_REMOVE(afm, afm_list): only the links say which list `r` is on. */
  method RemoveRule(r: Afm, ghost k: nat)
    requires r.owner.Linked() && k < |r.owner.rules| && r.owner.rules[k] == r
    modifies r.owner`first, r.owner`rules, r.owner.rules`next, r.owner.rules`prev
    ensures r.owner.Linked() && r.owner.rules == Without(old(r.owner.rules), k)
  {
    if r.next != null {
      r.next.prev := r.prev;
    }
    match r.prev {
      case AtHead(head) => head.first := r.next;
      case AtNext(before) => before.next := r.next;
    }
    WithoutDistinct(r.owner.rules, k);
    r.owner.rules := Without(r.owner.rules, k);
  }

  /** struct afm_head: one interface's bucket. */
  class AfmHead {
    var next: AfmHead?
    var prev: Link<FlowMap, AfmHead>
    var first: Afm?
    const ifp: nat
    ghost var rules: seq<Afm>

    constructor (ifp: nat, chain: FlowMap)
      ensures this.ifp == ifp && rules == [] && first == null
      ensures next == null && prev == AtHead(chain)
    {
      this.ifp := ifp;
      rules := [];
      first := null;
      next := null;
      prev := AtHead(chain);
    }

    /** The rule list is doubly linked through `rules`, without repetition. */
    ghost predicate Linked()
      reads `first, `rules, rules
    {
      && (forall i, j :: 0 <= i < j < |rules| ==> rules[i] != rules[j])
      && first == (if rules == [] then null else rules[0])
      && (forall i {:trigger rules[i].next} :: 0 <= i < |rules| ==>
            rules[i].next == if i + 1 < |rules| then rules[i + 1] else null)
      && (forall i {:trigger rules[i].prev} :: 0 <= i < |rules| ==>
            rules[i].prev == if i == 0 then AtHead(this) else AtNext(rules[i - 1]))
      && (forall i :: 0 <= i < |rules| ==> rules[i].owner == this)
    }

    /** LIST_INSERT_HEAD(&head->afh_head, afm, afm_list) */
    method InsertRule(r: Afm)
      requires Linked() && r !in rules && r.owner == this
      modifies `first, `rules, rules`prev, r`next, r`prev
      ensures Linked() && rules == [r] + old(rules)
    {
      r.next := first;
      if first != null {
        first.prev := AtNext(r);
      }
      first := r;
      r.prev := AtHead(this);
      rules := [r] + rules;
    }
  }

  /** afhead_chain and everything reachable from it. */
  class FlowMap {
    var first: AfmHead?
    ghost var heads: seq<AfmHead>
    ghost var nodes: set<Afm>        // every rule on some list
    ghost var table: Table           // the abstract value
    ghost var headsFreed: set<AfmHead>
    ghost var rulesFreed: set<Afm>

    /** The chain of heads is doubly linked through `heads`. */
    ghost predicate Chained()
      reads `first, `heads, heads`next, heads`prev
    {
      && (forall i, j :: 0 <= i < j < |heads| ==> heads[i] != heads[j])
      && first == (if heads == [] then null else heads[0])
      && (forall i {:trigger heads[i].next} :: 0 <= i < |heads| ==>
            heads[i].next == if i + 1 < |heads| then heads[i + 1] else null)
      && (forall i {:trigger heads[i].prev} :: 0 <= i < |heads| ==>
            heads[i].prev == if i == 0 then AtHead(this) else AtNext(heads[i - 1]))
    }

    /** Every list is well linked, and `nodes` is exactly what is on them. */
    ghost predicate ListsOk()
      reads `heads, `nodes, heads`first, heads`rules, nodes
    {
      && (forall h :: h in heads ==> (forall r :: r in h.rules ==> r in nodes) && h.Linked())
      && (forall r :: r in nodes ==> r.owner in heads && r in r.owner.rules)
    }

    /** The lists spell out `table`. */
    ghost predicate Abstracts()
      reads `table, `heads, heads`rules
    {
      && |table| == |heads|
      && forall i :: 0 <= i < |heads| ==> table[i] == Bucket(heads[i].ifp, Rules(heads[i].rules))
    }

    /** Nothing that was freed is reachable. */
    ghost predicate Accounted()
      reads this
    {
      && (forall h :: h in heads ==> h !in headsFreed)
      && nodes !! rulesFreed
    }

    ghost predicate Valid()
      reads this, heads, nodes
    {
      Chained() && ListsOk() && Abstracts() && Accounted()
    }

    lemma HeadsDistinct(k: nat)
      requires Chained() && k < |heads|
      ensures forall i :: 0 <= i < |heads| && i != k ==> heads[i] != heads[k]
    {
    }

    lemma TableSize()
      requires Valid()
      ensures |table| == |heads|
    {
    }

    /** What a head says of its first rule. */
    lemma FirstRule(k: nat)
      requires Valid() && k < |heads|
      ensures |table| == |heads| && |table[k].rules| == |heads[k].rules|
      ensures heads[k].first == null <==> heads[k].rules == []
      ensures heads[k].first != null ==>
        heads[k].first == heads[k].rules[0] && heads[k].first in nodes && heads[k].first.owner == heads[k]
    {
      hide Chained, Accounted;
      var h := heads[k];
      assert h in heads && h.Linked();
      assert h.rules != [] ==> h.rules[0] in h.rules;
    }

    constructor ()
      ensures Valid() && table == []
    {
      first := null;
      heads := [];
      nodes := {};
      table := [];
      headsFreed, rulesFreed := {}, {};
    }

    /** The walk every routine starts with. */
    method FindHead(ifp: nat) returns (head: AfmHead?, ghost k: nat)
      requires Valid()
      ensures k == Find(table, ifp)
      ensures k < |heads| ==> head == heads[k]
      ensures k == |heads| ==> head == null
    {
      head := first;
      k := 0;
      while head != null && head.ifp != ifp
        invariant k <= |heads|
        invariant head == if k < |heads| then heads[k] else null
        invariant forall j :: 0 <= j < k ==> heads[j].ifp != ifp
        decreases |heads| - k
      {
        head := head.next;
        k := k + 1;
      }
      FindUnique(table, ifp, k);
    }

    /** LIST_INSERT_HEAD(&afhead_chain, head, afh_chain) */
    method InsertHead(head: AfmHead)
      requires Chained() && ListsOk() && head !in heads
      requires head.first == null && head.rules == []
      modifies `first, `heads, heads`prev, head`next, head`prev
      ensures Chained() && ListsOk() && heads == [head] + old(heads)
    {
      head.next := first;
      if first != null {
        first.prev := AtNext(head);
      }
      first := head;
      head.prev := AtHead(this);
      heads := [head] + heads;
      forall h | h in heads ensures h.Linked() && forall r :: r in h.rules ==> r in nodes {
        assert h != head ==> old(h.Linked());
      }
    }

    /** LIST_REMOVE(head, afh_chain): only the links say where `head` is. */
    method UnlinkHead(head: AfmHead, ghost k: nat)
      requires Chained() && k < |heads| && heads[k] == head
      modifies `first, `heads, heads`next, heads`prev
      ensures Chained() && heads == Without(old(heads), k)
    {
      if head.next != null {
        head.next.prev := head.prev;
      }
      match head.prev {
        case AtHead(chain) => chain.first := head.next;
        case AtNext(before) => before.next := head.next;
      }
      WithoutDistinct(heads, k);
      heads := Without(heads, k);
    }

    /** An empty bucket leaves the chain. */
    method RemoveHead(head: AfmHead, ghost k: nat)
      requires Chained() && ListsOk() && k < |heads| && heads[k] == head && head.rules == []
      modifies `first, `heads, heads`next, heads`prev
      ensures Chained() && ListsOk() && heads == Without(old(heads), k)
    {
      UnlinkHead(head, k);
      WithoutMembers(old(heads), k);
      forall h | h in heads ensures h.Linked() && forall r :: r in h.rules ==> r in nodes {
        assert old(h.Linked());
      }
    }

    /** The list of `head` gains `r` at its front. */
    method InsertRule(head: AfmHead, r: Afm)
      requires Chained() && ListsOk() && head in heads && r !in nodes && r.owner == head
      modifies `nodes, head`first, head`rules, nodes`prev, r`next, r`prev
      ensures Chained() && ListsOk()
      ensures nodes == old(nodes) + {r} && head.rules == [r] + old(head.rules)
    {
      head.InsertRule(r);
      nodes := nodes + {r};
      forall h | h in heads && h != head ensures h.Linked() && forall r :: r in h.rules ==> r in nodes {
        assert old(h.Linked());
      }
    }

    /** No rule is on two lists. */
    lemma ListsApart(head: AfmHead)
      requires ListsOk() && head in heads
      ensures forall h, x :: h in heads && h != head && x in h.rules ==> x !in head.rules
      ensures forall i, j :: 0 <= i < j < |head.rules| ==> head.rules[i] != head.rules[j]
    {
    }

    /** The list that holds `r` loses it. */
    method DeleteRule(r: Afm, ghost k: nat)
      requires Chained() && ListsOk() && r in nodes && k < |r.owner.rules| && r.owner.rules[k] == r
      modifies `nodes, r.owner`first, r.owner`rules, nodes`next, nodes`prev
      ensures Chained() && ListsOk()
      ensures nodes == old(nodes) - {r} && r.owner.rules == Without(old(r.owner.rules), k)
    {
      hide Chained, Without;
      ghost var head := r.owner;
      ListsApart(head);
      WithoutMembers(head.rules, k);
      RemoveRule(r, k);
      nodes := nodes - {r};
      assert r !in head.rules;
      forall h | h in heads && h != head ensures h.Linked() && forall x :: x in h.rules ==> x in nodes {
        assert old(h.Linked()) && h.rules == old(h.rules);
      }
      forall x | x in nodes ensures x.owner in heads && x in x.owner.rules {
        assert old(x in x.owner.rules);
      }
    }

    method Alloc(ifp: nat) returns (error: int)
      requires Valid()
      modifies this, heads`prev
      ensures Valid() && error == 0
      ensures table == AfMapSpec.Alloc(old(table), ifp)
      ensures nodes == old(nodes) && headsFreed == old(headsFreed) && rulesFreed == old(rulesFreed)
      ensures |heads| == |old(heads)| + 1 && heads[1..] == old(heads) && fresh(heads[0])
    {
      hide Chained, ListsOk, AfmHead.Linked, Find, Rules;
      var head := new AfmHead(ifp, this);
      InsertHead(head);
      table := AfMapSpec.Alloc(table, ifp);
      error := 0;
    }

    /** A new rule goes on the front of list `k`. */
    method Attach(head: AfmHead, ghost k: nat, afm: Afm)
      requires Valid() && k < |heads| && heads[k] == head
      requires afm.owner == head && afm !in nodes && afm !in rulesFreed
      modifies `table, `nodes, head`first, head`rules, nodes`prev, afm`next, afm`prev
      ensures Valid()
      ensures |old(table)| == |heads| && table == SetRules(old(table), k, [afm.rule] + old(table[k].rules))
      ensures nodes == old(nodes) + {afm} && head.rules == [afm] + old(head.rules)
    {
      hide Chained, ListsOk, AfmHead.Linked, Rules;
      HeadsDistinct(k);
      InsertRule(head, afm);
      RulesChange(afm, old(head.rules), 0);
      assert Accounted();
      table := SetRules(table, k, [afm.rule] + table[k].rules);
      assert Abstracts();
    }

    /** The body of afm_add once the interface is known and the rule accepted. */
    method AddAt(head: AfmHead, ghost k: nat, rule: Rule) returns (afm: Afm)
      requires Valid() && k < |heads| && heads[k] == head
      modifies `table, `nodes, head`first, head`rules, nodes`prev
      ensures Valid()
      ensures |old(table)| == |heads| && table == SetRules(old(table), k, [rule] + old(table[k].rules))
      ensures fresh(afm) && nodes == old(nodes) + {afm} && head.rules == [afm] + old(head.rules)
    {
      hide Chained, ListsOk, Abstracts, AfmHead.Linked, Rules;
      afm := new Afm(rule, head);
      assert afm !in rulesFreed;
      Attach(head, k, afm);
    }

    method Add(ifp: nat, rule: Rule, memory: bool) returns (error: int)
      requires Valid()
      modifies `table, `nodes, heads`first, heads`rules, nodes`prev
      ensures Valid()
      ensures error == (if Find(old(table), ifp) == |old(table)| then -1
                        else if rule.flow.family != 2 then 22
                        else if rule.flow.len != 48 then 22
                        else if !memory then 12
                        else 0)
      ensures table == if error == 0 then AfMapSpec.Add(old(table), ifp, rule) else old(table)
      ensures error != 0 ==> nodes == old(nodes)
      ensures error == 0 ==> var r := heads[Find(old(table), ifp)].rules[0]; fresh(r) && nodes == old(nodes) + {r}
    {
      var head, k := FindHead(ifp);
      if head == null { return -1; }
      if rule.flow.family == AF_INET {
        if rule.flow.len != FLOWINFO_IN_SIZE { return EINVAL; }
      } else {
        return EINVAL;
      }
      if !memory { return ENOMEM; }
      var _ := AddAt(head, k, rule);
      error := 0;
    }

    /** The body of afm_remove: the rule leaves its list and is freed. */
    method RemoveAt(afm: Afm, ghost i: nat, ghost k: nat)
      requires Valid() && afm in nodes
      requires i < |heads| && heads[i] == afm.owner && k < |heads[i].rules| && heads[i].rules[k] == afm
      modifies `table, `nodes, `rulesFreed, afm.owner`first, afm.owner`rules, nodes`next, nodes`prev
      ensures Valid()
      ensures table == AfMapSpec.RemoveAt(old(table), i, k)
      ensures nodes == old(nodes) - {afm} && rulesFreed == old(rulesFreed) + {afm}
      ensures heads[i].rules == Without(old(heads[i].rules), k)
    {
      hide Chained, ListsOk, AfmHead.Linked, Rules;
      HeadsDistinct(i);
      RulesChange(afm, heads[i].rules, k);
      DeleteRule(afm, k);
      table := AfMapSpec.RemoveAt(table, i, k);
      assert Abstracts();
      assert afm !in rulesFreed;  // so it is freed once only
      rulesFreed := rulesFreed + {afm};
    }

    /** Where `afm` is. */
    lemma Locate(afm: Afm) returns (i: nat, k: nat)
      requires ListsOk() && afm in nodes
      ensures i < |heads| && heads[i] == afm.owner
      ensures k < |heads[i].rules| && heads[i].rules[k] == afm
    {
      i :| i < |heads| && heads[i] == afm.owner;
      k :| k < |heads[i].rules| && heads[i].rules[k] == afm;
    }

    method Remove(afm: Afm) returns (error: int, ghost i: nat, ghost k: nat)
      requires Valid() && afm in nodes
      modifies `table, `nodes, `rulesFreed, heads`first, heads`rules, nodes`next, nodes`prev
      ensures Valid() && error == 0
      ensures i < |heads| && k < |old(heads[i].rules)| && old(heads[i].rules[k]) == afm
      ensures |old(table)| == |heads| && |old(table[i].rules)| == |old(heads[i].rules)|
      ensures table == AfMapSpec.RemoveAt(old(table), i, k)
      ensures nodes == old(nodes) - {afm} && rulesFreed == old(rulesFreed) + {afm}
    {
      i, k := Locate(afm);
      RemoveAt(afm, i, k);
      error := 0;
    }

    method RemoveAll(ifp: nat) returns (error: int)
      requires Valid()
      modifies `table, `nodes, `rulesFreed, heads`first, heads`rules, nodes`next, nodes`prev
      ensures Valid()
      ensures error == if Find(old(table), ifp) == |old(table)| then -1 else 0
      ensures table == AfMapSpec.RemoveAll(old(table), ifp)
      ensures nodes <= old(nodes) && nodes + rulesFreed == old(nodes + rulesFreed)
      ensures error == 0 ==> heads[Find(old(table), ifp)].rules == []
    {
      hide Chained, ListsOk, Abstracts, Accounted, AfmHead.Linked, Rules;
      var head, k := FindHead(ifp);
      TableSize();
      if head == null { return -1; }
      while head.first != null
        invariant Valid() && nodes <= old(nodes)
        invariant nodes + rulesFreed == old(nodes + rulesFreed)
        invariant |table| == |old(table)| && table == SetRules(old(table), k, table[k].rules)
        decreases |head.rules|
      {
        var afm := head.first;
        FirstRule(k);
        RemoveAt(afm, k, 0);
        TableSize();
      }
      FirstRule(k);
      error := 0;
    }

    /** An emptied bucket leaves the chain and is freed. */
    method FreeHead(head: AfmHead, ghost k: nat)
      requires Valid() && k < |heads| && heads[k] == head && head.rules == []
      modifies `first, `heads, `table, `headsFreed, heads`next, heads`prev
      ensures Valid()
      ensures heads == Without(old(heads), k) && |old(table)| == |old(heads)|
      ensures table == Without(old(table), k) && headsFreed == old(headsFreed) + {head}
    {
      hide Chained, ListsOk, AfmHead.Linked, Rules;
      HeadsDistinct(k);
      WithoutMembers(heads, k);
      RemoveHead(head, k);
      assert head !in headsFreed;  // so it is freed once only
      headsFreed := headsFreed + {head};
      table := Without(table, k);
      assert Abstracts();
    }

    method Dealloc(ifp: nat) returns (error: int)
      requires Valid()
      modifies this, heads, nodes`next, nodes`prev
      ensures Valid()
      ensures error == if Find(old(table), ifp) == |old(table)| then -1 else 0
      ensures table == AfMapSpec.Dealloc(old(table), ifp)
      ensures nodes <= old(nodes) && nodes + rulesFreed == old(nodes + rulesFreed)
      ensures error != 0 ==> heads == old(heads) && headsFreed == old(headsFreed)
      ensures error == 0 ==> heads == Without(old(heads), Find(old(table), ifp))
      ensures error == 0 ==> headsFreed == old(headsFreed) + {old(heads[Find(table, ifp)])}
    {
      hide Chained, ListsOk, AfmHead.Linked, Rules;
      var head, k := FindHead(ifp);
      if head == null { return -1; }
      var _ := RemoveAll(ifp);
      FreeHead(head, k);
      error := 0;
    }

    /** The list an interface sees. */
    lemma VisibleRules(ifp: nat, i: nat)
      requires Valid() && i == Find(table, ifp) < |heads|
      ensures Visible(table, ifp) == Rules(heads[i].rules)
      ensures heads[i].Linked() && forall r :: r in heads[i].rules ==> r in nodes
    {
      hide Chained, Accounted, AfmHead.Linked;
      assert heads[i] in heads;
    }

    /** The nodes of that list. */
    ghost function ListOf(ifp: nat): (list: seq<Afm>)
      requires Valid()
      reads this, heads, nodes
      ensures Rules(list) == Visible(table, ifp)
    {
      var i := Find(table, ifp);
      if i == |table| then [] else
        VisibleRules(ifp, i);
        heads[i].rules
    }

    method Top(ifp: nat) returns (afm: Afm?)
      requires Valid()
      ensures afm == if ListOf(ifp) == [] then null else ListOf(ifp)[0]
      ensures afm != null ==> afm in nodes
    {
      hide Chained, ListsOk, Abstracts, Accounted;
      var head, k := FindHead(ifp);
      TableSize();
      if head == null { return null; }
      VisibleRules(ifp, k);
      afm := head.first;
    }

    /** The newest visible rule for the given vpi and vci. */
    method Lookup(ifp: nat, vpi: int, vci: int) returns (afm: Afm?)
      requires Valid()
      ensures var list, k := ListOf(ifp), FindVc(Visible(table, ifp), vpi, vci);
        afm == if k == |list| then null else list[k]
      ensures afm != null ==> afm in nodes
    {
      hide Chained, ListsOk, Abstracts, Accounted, FindVc;
      var head, i := FindHead(ifp);
      TableSize();
      if head == null { return null; }
      VisibleRules(ifp, i);
      ghost var rules, k := head.rules, 0;
      afm := head.first;
      while afm != null
        invariant k <= |rules| && afm == if k < |rules| then rules[k] else null
        invariant forall j :: 0 <= j < k ==> rules[j].rule.vpi != vpi || rules[j].rule.vci != vci
        decreases |rules| - k
      {
        if afm.rule.vpi == vpi && afm.rule.vci == vci { break; }
        afm := afm.next;
        k := k + 1;
      }
      FindVcUnique(Rules(rules), vpi, vci, k);
    }

    /** The newest rule of the list that matches. */
    method Match4(head: AfmHead, flow: Flow) returns (afm: Afm?)
      requires head.Linked()
      ensures var k := FindMatch(Rules(head.rules), flow);
        afm == if k == |head.rules| then null else head.rules[k]
    {
      hide FindMatch;
      ghost var rules, k := head.rules, 0;
      afm := head.first;
      while afm != null
        invariant k <= |rules| && afm == if k < |rules| then rules[k] else null
        invariant forall j :: 0 <= j < k ==> !Matches(rules[j].rule, flow)
        decreases |rules| - k
      {
        var r := afm.rule.flow;
        if r.dst != 0 && r.dst != flow.dst {
        } else if r.dport != 0 && r.dport != flow.dport {
        } else if r.src != 0 && r.src != flow.src {
        } else if r.sport != 0 && r.sport != flow.sport {
        } else if r.proto != 0 && r.proto != flow.proto {
        } else {
          FindMatchUnique(Rules(rules), flow, k);
          return;
        }
        afm := afm.next;
        k := k + 1;
      }
      FindMatchUnique(Rules(rules), flow, k);
    }

    method Match(ifp: nat, flow: Flow) returns (afm: Afm?)
      requires Valid()
      ensures var list, k := ListOf(ifp), FindMatch(Visible(table, ifp), flow);
        afm == if flow.family != AF_INET || k == |list| then null else list[k]
      ensures afm != null ==> afm in nodes
      ensures (if afm == null then None else Some(afm.rule)) ==
              if flow.family == AF_INET then FirstMatch(Visible(table, ifp), flow) else None
    {
      hide Chained, ListsOk, Abstracts, Accounted;
      var head, i := FindHead(ifp);
      TableSize();
      if head == null { return null; }
      VisibleRules(ifp, i);
      if flow.family == AF_INET {
        afm := Match4(head, flow);
      } else {
        afm := null;
      }
    }
  }
}
