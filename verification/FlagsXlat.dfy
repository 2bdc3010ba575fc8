/** emul_flags_translate: a flag word translated through a table.  A word is
    the set of positions of its one bits. */
module FlagsXlat {
  type Bits = set<int>

  /** struct emul_flags_xtab */
  datatype Xtab = Xtab(omask: Bits, oval: Bits, nval: Bits)

  /** The entries that match, each against what the earlier ones left. */
  function Matched(es: seq<Xtab>, word: Bits): seq<Xtab> {
    if es == [] then []
    else if word * es[0].omask == es[0].oval then [es[0]] + Matched(es[1..], word - es[0].omask)
    else Matched(es[1..], word)
  }

  function Masks(es: seq<Xtab>): Bits {
    if es == [] then {} else es[0].omask + Masks(es[1..])
  }

  function Olds(es: seq<Xtab>): Bits {
    if es == [] then {} else es[0].oval + Olds(es[1..])
  }

  function News(es: seq<Xtab>): Bits {
    if es == [] then {} else es[0].nval + News(es[1..])
  }

  lemma {:induction false} MatchedLast(es: seq<Xtab>, e: Xtab, word: Bits)
    ensures var m := Matched(es, word);
      Matched(es + [e], word) == m + if (word - Masks(m)) * e.omask == e.oval then [e] else []
    decreases es
  {
    if es == [] {
      assert es + [e] == [e] && [e][1..] == [] && word - {} == word;
      assert Matched([], word - e.omask) == [] && Matched([], word) == [];
    } else {
      var f, rest := es[0], es[1..];
      assert (es + [e])[0] == f && (es + [e])[1..] == rest + [e];
      if word * f.omask == f.oval {
        MatchedLast(rest, e, word - f.omask);
        var m := Matched(rest, word - f.omask);
        assert ([f] + m)[1..] == m && word - f.omask - Masks(m) == word - (f.omask + Masks(m));
      } else {
        MatchedLast(rest, e, word);
      }
    }
  }

  lemma {:induction false} SumsLast(m: seq<Xtab>, e: Xtab)
    ensures News(m + [e]) == News(m) + e.nval && Masks(m + [e]) == Masks(m) + e.omask
    decreases m
  {
    if m == [] {
      assert m + [e] == [e] && [e][1..] == [];
    } else {
      assert (m + [e])[0] == m[0] && (m + [e])[1..] == m[1..] + [e];
      SumsLast(m[1..], e);
    }
  }

  /** The table ends at its first entry with an empty mask, the `n`-th. */
  method Translate(tab: seq<Xtab>, word: Bits) returns (out: Bits, leftover: Bits, ghost n: nat)
    requires exists i :: 0 <= i < |tab| && tab[i].omask == {}
    ensures n < |tab| && tab[n].omask == {} && forall i :: 0 <= i < n ==> tab[i].omask != {}
    ensures out == News(Matched(tab[..n], word)) && leftover == word - Masks(Matched(tab[..n], word))
  {
    hide Matched, News, Masks;
    NothingMatched(word);
    out, leftover := {}, word;
    var t := 0;
    assert tab[..0] == [];
    while tab[t].omask != {}
      invariant 0 <= t < |tab| && exists i :: t <= i < |tab| && tab[i].omask == {}
      invariant forall i :: 0 <= i < t ==> tab[i].omask != {}
      invariant out == News(Matched(tab[..t], word)) && leftover == word - Masks(Matched(tab[..t], word))
      decreases |tab| - t
    {
      MatchedLast(tab[..t], tab[t], word);
      SumsLast(Matched(tab[..t], word), tab[t]);
      assert tab[..t + 1] == tab[..t] + [tab[t]];
      assert Matched(tab[..t], word) + [] == Matched(tab[..t], word);
      if leftover * tab[t].omask == tab[t].oval {
        leftover := leftover - tab[t].omask;
        out := out + tab[t].nval;
      }
      t := t + 1;
    }
    n := t;
  }

  lemma NothingMatched(word: Bits)
    ensures News(Matched([], word)) == {} && Masks(Matched([], word)) == {}
  {
  }

  /** Result and leftover account for every input bit: what is not left over is
      exactly what the matched entries stand for. */
  lemma {:induction false} AccountsForAll(es: seq<Xtab>, word: Bits)
    ensures var m := Matched(es, word);
      && (word - Masks(m)) !! Olds(m)
      && (word - Masks(m)) + Olds(m) == word
    decreases es
  {
    if es != [] {
      var e := es[0];
      if word * e.omask == e.oval {
        var rest := Matched(es[1..], word - e.omask);
        AccountsForAll(es[1..], word - e.omask);
        assert ([e] + rest)[1..] == rest;
        OldsWithin(es[1..], word - e.omask);
      } else {
        AccountsForAll(es[1..], word);
      }
    }
  }

  lemma {:induction false} OldsWithin(es: seq<Xtab>, word: Bits)
    ensures Olds(Matched(es, word)) <= word
    decreases es
  {
    if es != [] {
      var e := es[0];
      if word * e.omask == e.oval {
        OldsWithin(es[1..], word - e.omask);
        var rest := Matched(es[1..], word - e.omask);
        assert ([e] + rest)[1..] == rest;
      } else {
        OldsWithin(es[1..], word);
      }
    }
  }

  // ---- order ----------------------------------------------------------------------

  predicate DisjointMasks(es: seq<Xtab>) {
    forall i, j :: 0 <= i < j < |es| ==> es[i].omask !! es[j].omask
  }

  predicate Hit(e: Xtab, word: Bits) {
    word * e.omask == e.oval
  }

  ghost predicate HitsBit(es: seq<Xtab>, word: Bits, b: int) {
    exists e :: e in es && Hit(e, word) && b in e.nval
  }

  ghost predicate HitsMask(es: seq<Xtab>, word: Bits, b: int) {
    exists e :: e in es && Hit(e, word) && b in e.omask
  }

  /** With disjoint masks every entry sees the original word. */
  lemma {:induction false} DisjointMatches(es: seq<Xtab>, word: Bits, orig: Bits, b: int)
    requires DisjointMasks(es)
    requires forall i :: 0 <= i < |es| ==> word * es[i].omask == orig * es[i].omask
    ensures b in News(Matched(es, word)) <==> HitsBit(es, orig, b)
    ensures b in Masks(Matched(es, word)) <==> HitsMask(es, orig, b)
    decreases es
  {
    if es != [] {
      var e, rest := es[0], es[1..];
      var next := if Hit(e, word) then word - e.omask else word;
      forall i | 0 <= i < |rest| ensures next * rest[i].omask == orig * rest[i].omask {
        assert rest[i] == es[i + 1] && e.omask !! es[i + 1].omask;
        assert word * es[i + 1].omask == orig * es[i + 1].omask;
      }
      forall i, j | 0 <= i < j < |rest| ensures rest[i].omask !! rest[j].omask {
        assert rest[i] == es[i + 1] && rest[j] == es[j + 1];
      }
      DisjointMatches(rest, next, orig, b);
      assert Hit(e, word) <==> Hit(e, orig);
      var m := Matched(rest, next);
      assert ([e] + m)[1..] == m;
      assert forall x :: x in es <==> x == e || x in rest;
    }
  }

  /** Then the outcome does not depend on the order of the table. */
  lemma OrderIrrelevant(es: seq<Xtab>, fs: seq<Xtab>, word: Bits)
    requires DisjointMasks(es) && DisjointMasks(fs)
    requires multiset(es) == multiset(fs)
    ensures News(Matched(es, word)) == News(Matched(fs, word))
    ensures word - Masks(Matched(es, word)) == word - Masks(Matched(fs, word))
  {
    forall e ensures e in es <==> e in fs {
      assert e in multiset(es) <==> e in multiset(fs);
    }
    forall b
      ensures b in News(Matched(es, word)) <==> b in News(Matched(fs, word))
      ensures b in Masks(Matched(es, word)) <==> b in Masks(Matched(fs, word))
    {
      DisjointMatches(es, word, word, b);
      DisjointMatches(fs, word, word, b);
    }
  }

  lemma TwoPlaces<T>(s: seq<T>, i: nat, j: nat)
    requires i < j < |s| && s[i] == s[j]
    ensures multiset(s)[s[i]] >= 2
  {
    assert s == s[..j] + [s[j]] + s[j + 1..];
    assert s[..j][i] == s[i];
    assert s[i] in multiset(s[..j]);
  }

  lemma {:induction false} PlacesOf<T>(s: seq<T>, x: T) returns (i: nat, j: nat)
    requires multiset(s)[x] >= 2
    ensures i < j < |s| && s[i] == s[j] == x
  {
    assert s == [s[0]] + s[1..];
    if s[0] == x {
      assert x in multiset(s[1..]);
      i, j := 0, 1;
      while s[j] != x
        invariant 1 <= j < |s| && x in s[j..]
        decreases |s| - j
      {
        j := j + 1;
      }
    } else {
      i, j := PlacesOf(s[1..], x);
      i, j := i + 1, j + 1;
    }
  }

  lemma DisjointPermuted(es: seq<Xtab>, fs: seq<Xtab>)
    requires DisjointMasks(es) && multiset(es) == multiset(fs)
    ensures DisjointMasks(fs)
  {
    forall i, j | 0 <= i < j < |fs| ensures fs[i].omask !! fs[j].omask {
      if fs[i] == fs[j] {
        TwoPlaces(fs, i, j);
        var k, l := PlacesOf(es, fs[i]);
      } else {
        assert fs[i] in multiset(es) && fs[j] in multiset(es);
        var k :| 0 <= k < |es| && es[k] == fs[i];
        var l :| 0 <= l < |es| && es[l] == fs[j];
        assert k < l || l < k;
      }
    }
  }

  predicate Same(es: seq<Xtab>, fs: seq<Xtab>, word: Bits) {
    && News(Matched(es, word)) == News(Matched(fs, word))
    && word - Masks(Matched(es, word)) == word - Masks(Matched(fs, word))
  }

  predicate HasMasks(es: seq<Xtab>, masks: seq<Bits>) {
    |es| == |masks| && forall i :: 0 <= i < |es| ==> es[i].omask == masks[i]
  }

  predicate Disjoint(masks: seq<Bits>) {
    forall i, j :: 0 <= i < j < |masks| ==> masks[i] !! masks[j]
  }

  /** Entries `p` and `q` both ask for bit `b`, each with a new value of its own;
      the rest ask for some other bit. */
  function Rivals(masks: seq<Bits>, b: int, p: nat, q: nat): (es: seq<Xtab>)
    ensures |es| == |masks|
  {
    seq(|masks|, k requires 0 <= k < |masks| =>
      if k == p then Xtab(masks[k], {b}, {0})
      else if k == q then Xtab(masks[k], {b}, {1})
      else Xtab(masks[k], {if b == 0 then 1 else 0}, {}))
  }

  lemma {:induction false} NoneMatch(es: seq<Xtab>)
    requires forall k :: 0 <= k < |es| ==> es[k].oval != {}
    ensures Matched(es, {}) == []
    decreases es
  {
    if es != [] {
      assert forall k :: 0 <= k < |es[1..]| ==> es[1..][k] == es[k + 1];
      assert {} * es[0].omask == {};
      NoneMatch(es[1..]);
    }
  }

  /** The first entry to take the only bit is the only one to match. */
  lemma {:induction false} FirstTakes(es: seq<Xtab>, b: int, p: nat)
    requires p < |es| && Hit(es[p], {b}) && b in es[p].omask
    requires forall k :: 0 <= k < p ==> !Hit(es[k], {b})
    requires forall k :: 0 <= k < |es| ==> es[k].oval != {}
    ensures News(Matched(es, {b})) == es[p].nval
    decreases es
  {
    assert forall k :: 0 <= k < |es[1..]| ==> es[1..][k] == es[k + 1];
    if p == 0 {
      NoneMatch(es[1..]);
      assert {b} - es[0].omask == {};
      assert Matched(es, {b}) == [es[0]] && [es[0]][1..] == [];
    } else {
      assert !Hit(es[0], {b});
      FirstTakes(es[1..], b, p - 1);
    }
  }

  /** Two masks that overlap: a table with these masks, and a word, for which
      swapping the two entries changes the outcome. */
  lemma OverlapMatters(masks: seq<Bits>, i: nat, j: nat) returns (es: seq<Xtab>, fs: seq<Xtab>, word: Bits)
    requires i < j < |masks| && !(masks[i] !! masks[j])
    ensures HasMasks(es, masks) && fs == es[i := es[j]][j := es[i]] && !Same(es, fs, word)
  {
    var m, n := masks[i], masks[j];
    assert (forall b :: b in m ==> b !in n) ==> m !! n;
    var b :| b in m && b in n;
    es, word := Rivals(masks, b, i, j), {b};
    fs := es[i := es[j]][j := es[i]];
    assert {b} * masks[i] == {b} && {b} * masks[j] == {b};
    FirstTakes(es, b, i);
    FirstTakes(fs, b, i);
    assert 0 in es[i].nval && 0 !in fs[i].nval;
  }

  lemma SwapPermutes<T>(s: seq<T>, i: nat, j: nat)
    requires i < j < |s|
    ensures multiset(s[i := s[j]][j := s[i]]) == multiset(s)
  {
  }

  /** Exactly with disjoint masks the order never matters: whatever old and new
      values the entries have, and whatever the word. */
  lemma OrderIrrelevantIff(masks: seq<Bits>)
    ensures (forall es, fs, word :: HasMasks(es, masks) && multiset(es) == multiset(fs) ==> Same(es, fs, word))
            <==> Disjoint(masks)
  {
    if Disjoint(masks) {
      forall es, fs, word | HasMasks(es, masks) && multiset(es) == multiset(fs) ensures Same(es, fs, word) {
        DisjointPermuted(es, fs);
        OrderIrrelevant(es, fs, word);
      }
    } else {
      var i, j :| 0 <= i < j < |masks| && !(masks[i] !! masks[j]);
      var es, fs, word := OverlapMatters(masks, i, j);
      SwapPermutes(es, i, j);
    }
  }

  // ---- there and back ----------------------------------------------------------------

  /** Single flags, each with a mask of its own on both sides. */
  predicate SingleFlags(es: seq<Xtab>) {
    && (forall i :: 0 <= i < |es| ==> es[i].omask == es[i].oval && es[i].nval != {} && es[i].omask != {})
    && DisjointMasks(es)
    && forall i, j :: 0 <= i < j < |es| ==> es[i].nval !! es[j].nval
  }

  function Swapped(es: seq<Xtab>): (r: seq<Xtab>)
    ensures |r| == |es| && forall i :: 0 <= i < |r| ==> r[i] == Xtab(es[i].nval, es[i].nval, es[i].omask)
  {
    seq(|es|, i requires 0 <= i < |es| => Xtab(es[i].nval, es[i].nval, es[i].omask))
  }

  /** An entry's flag is in the result exactly when it matched. */
  lemma NvalInResult(es: seq<Xtab>, word: Bits, i: nat)
    requires SingleFlags(es) && i < |es|
    ensures News(Matched(es, word)) * es[i].nval == if Hit(es[i], word) then es[i].nval else {}
  {
    var out := News(Matched(es, word));
    forall b | b in es[i].nval ensures b in out <==> Hit(es[i], word) {
      DisjointMatches(es, word, word, b);
      if b in out {
        var e :| e in es && Hit(e, word) && b in e.nval;
        var j :| 0 <= j < |es| && es[j] == e;
        assert j == i;
      }
      assert es[i] in es;
    }
  }

  /** Translating the result back through the swapped table gives exactly the
      input bits that were translated, and nothing is left over. */
  lemma ThereAndBack(es: seq<Xtab>, word: Bits)
    requires SingleFlags(es)
    ensures var m := Matched(es, word);
            var back := Matched(Swapped(es), News(m));
            News(back) == word - (word - Masks(m)) && News(m) - Masks(back) == {}
  {
    var m, ss := Matched(es, word), Swapped(es);
    var out := News(m);
    var back := Matched(ss, out);
    forall i | 0 <= i < |es| ensures Hit(ss[i], out) <==> Hit(es[i], word) {
      NvalInResult(es, word, i);
    }
    forall b ensures b in News(back) <==> b in word && b in Masks(m) {
      DisjointMatches(ss, out, out, b);
      DisjointMatches(es, word, word, b);
      if b in News(back) {
        var s :| s in ss && Hit(s, out) && b in s.nval;
        var i :| 0 <= i < |ss| && ss[i] == s;
        assert es[i] in es;
      }
      if b in word && b in Masks(m) {
        var e :| e in es && Hit(e, word) && b in e.omask;
        var i :| 0 <= i < |es| && es[i] == e;
        assert ss[i] in ss;
      }
    }
    forall b | b in out ensures b in Masks(back) {
      DisjointMatches(ss, out, out, b);
      DisjointMatches(es, word, word, b);
      var e :| e in es && Hit(e, word) && b in e.nval;
      var i :| 0 <= i < |es| && es[i] == e;
      assert ss[i] in ss;
    }
  }
}
