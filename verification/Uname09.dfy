/** compat_09_sys_uname: the kernel's version string squeezed into a field of
    32 characters by four loops that share a cursor. */
module Uname09 {

  const NUL: char := '\0'
  const FIELD := 32

  /** The first index from `i` on at which the C string holds `stop`, or its end. */
  function Find(s: string, i: nat, stop: char): (j: nat)
    requires i <= |s|
    ensures i <= j <= |s|
    decreases |s| - i
  {
    if i == |s| || s[i] == stop then i else Find(s, i + 1, stop)
  }

  function Take(s: string, n: nat): string {
    if |s| <= n then s else s[..n]
  }

  /** Where the text after the first '(' starts. */
  function Open(version: string): (i: nat)
    requires '(' in version
    ensures 0 < i <= |version|
  {
    FindStretch(version, 0, |version|, '(');
    Find(version, 0, '(') + 1
  }

  /** The text in the first parenthesis, or up to the end. */
  function Release(version: string): string
    requires '(' in version
  {
    version[Open(version)..Find(version, Open(version), ')')]
  }

  /** The text from the next '#' after the parenthesis up to the ':' after it. */
  function Build(version: string): string
    requires '(' in version
  {
    var hash := Find(version, Find(version, Open(version), ')'), '#');
    version[hash..Find(version, hash, ':')]
  }

  /** `Find` finds nothing on a stretch free of `stop`, and finds what follows
      the stretch if that is `stop` or the end. */
  lemma {:induction false} FindStretch(s: string, i: nat, j: nat, stop: char)
    requires i <= j <= |s|
    ensures stop !in s[i..j] ==> j <= Find(s, i, stop)
    ensures stop !in s[i..j] && (j == |s| || s[j] == stop) ==> j == Find(s, i, stop)
    ensures stop in s[i..j] ==> Find(s, i, stop) < j
    decreases j - i
  {
    if i < j {
      assert s[i..j] == [s[i]] + s[i + 1..j];
      FindStretch(s, i + 1, j, stop);
    }
  }

  /** What the four loops leave: `open`, `stop`, `hash` and `cp` are where the
      first, second, third and fourth left the cursor. */
  lemma Extracted(version: string, open: nat, stop: nat, hash: nat, cp: nat)
    requires '(' in version && open == Open(version)
    requires open <= stop <= hash <= cp <= |version|
    requires ')' !in version[open..stop] && '#' !in version[stop..hash] && ':' !in version[hash..cp]
    requires stop - open + cp - hash < FIELD
    requires stop - open == FIELD - 1 || stop == |version| || version[stop] == ')'
    requires hash == |version| || version[hash] == '#'
    requires stop - open + cp - hash == FIELD - 1 || cp == |version| || version[cp] == ':'
    ensures version[open..stop] + version[hash..cp] == Take(Release(version) + Build(version), FIELD - 1)
  {
    hide Find, Take;
    FindStretch(version, open, stop, ')');
    if stop - open < FIELD - 1 {
      FindStretch(version, stop, hash, '#');
      FindStretch(version, hash, cp, ':');
      TakeConcat(Release(version), Build(version), version[hash..cp], FIELD - 1);
    } else {
      assert version[hash..cp] == [];
      TakeCut(Release(version), Build(version), version[open..stop]);
    }
  }

  lemma TakeCut(a: string, b: string, p: string)
    requires |p| <= |a| && a[..|p|] == p
    ensures Take(a + b, |p|) == p
  {
  }

  lemma TakeConcat(a: string, b: string, p: string, n: nat)
    requires |a| + |p| <= n && |p| <= |b| && b[..|p|] == p
    requires |a| + |p| == n || p == b
    ensures Take(a + b, n) == a + p
  {
  }

  /** The text of a version string in the usual form, such as
      "NetBSD 5.0 (GENERIC) #1: Sun ...". */
  lemma UsualForm(pre: string, rel: string, mid: string, build: string, post: string)
    requires '(' !in pre && ')' !in rel && '#' !in mid && ':' !in build
    ensures var version := pre + "(" + rel + ")" + mid + "#" + build + ":" + post;
      var text := rel + "#" + build;
      && '(' in version
      && Take(Release(version) + Build(version), FIELD - 1) == if |text| <= 31 then text else text[..31]
  {
    hide Find, Take, Release, Build, Open;
    var version := pre + "(" + rel + ")" + mid + "#" + build + ":" + post;
    Slices(pre, rel, mid, build, post);
    var close := |pre| + 1 + |rel|;
    var hash := close + 1 + |mid|;
    Finds(version, |pre|, close, hash, hash + 1 + |build|);
    var r, b := Release(version), Build(version);
    assert r == rel && b == ['#'] + build;
    Joined(rel, build);
    TakeIs(rel + "#" + build);
  }

  lemma Joined(rel: string, build: string)
    ensures rel + (['#'] + build) == rel + "#" + build
  {
  }

  lemma TakeIs(text: string)
    ensures Take(text, FIELD - 1) == if |text| <= 31 then text else text[..31]
  {
  }

  lemma Finds(version: string, paren: nat, close: nat, hash: nat, colon: nat)
    requires paren < close < hash < colon < |version|
    requires version[paren] == '(' && version[close] == ')' && version[hash] == '#' && version[colon] == ':'
    requires '(' !in version[0..paren] && ')' !in version[paren + 1..close]
    requires '#' !in version[close + 1..hash] && ':' !in version[hash + 1..colon]
    ensures '(' in version && Release(version) == version[paren + 1..close]
    ensures Build(version) == ['#'] + version[hash + 1..colon]
  {
    hide Find, Open;
    StepsOver(version, paren);
    FindStretch(version, paren + 1, close, ')');
    assert version[close..hash] == [')'] + version[close + 1..hash];
    FindStretch(version, close, hash, '#');
    assert version[hash..colon] == ['#'] + version[hash + 1..colon];
    FindStretch(version, hash, colon, ':');
  }

  lemma Slices(pre: string, rel: string, mid: string, build: string, post: string)
    ensures var version := pre + "(" + rel + ")" + mid + "#" + build + ":" + post;
      var close := |pre| + 1 + |rel|;
      var hash := close + 1 + |mid|;
      && |version| == hash + 2 + |build| + |post|
      && version[|pre|] == '(' && version[close] == ')' && version[hash] == '#' && version[hash + 1 + |build|] == ':'
      && version[0..|pre|] == pre && version[|pre| + 1..close] == rel
      && version[close + 1..hash] == mid && version[hash + 1..hash + 1 + |build|] == build
  {
  }

  /** The step over the character the first loop stopped at. */
  lemma StepsOver(version: string, cp: nat)
    requires cp <= |version| && '(' !in version[0..cp] && (cp == |version| || version[cp] == '(')
    ensures cp < |version| <==> '(' in version
    ensures cp < |version| ==> cp + 1 == Open(version)
  {
    hide Find;
    FindStretch(version, 0, cp, '(');
    FindStretch(version, 0, |version|, '(');
    assert version[0..|version|] == version;
  }

  /** A loop that only moves the cursor. */
  method Skip(version: string, from: nat, stop: char) returns (cp: nat)
    requires from <= |version|
    ensures from <= cp <= |version| && stop !in version[from..cp]
    ensures cp == |version| || version[cp] == stop
  {
    cp := from;
    while cp < |version| && version[cp] != stop
      invariant from <= cp <= |version| && stop !in version[from..cp]
    {
      cp := cp + 1;
    }
  }

  /** A loop that copies to `at` and on, as far as there is room. */
  method Copy(version: string, from: nat, stop: char, field: array<char>, at: nat) returns (cp: nat, dp: nat)
    requires from <= |version| && field.Length == FIELD && at < FIELD
    modifies field
    ensures from <= cp <= |version| && stop !in version[from..cp] && dp == at + cp - from < FIELD
    ensures dp == FIELD - 1 || cp == |version| || version[cp] == stop
    ensures field[..dp] == old(field[..at]) + version[from..cp]
    ensures forall k :: dp <= k < FIELD ==> field[k] == old(field[k])
  {
    var ep := FIELD - 1;
    cp, dp := from, at;
    while cp < |version| && version[cp] != stop && dp < ep
      invariant from <= cp <= |version| && dp == at + cp - from <= ep
      invariant stop !in version[from..cp]
      invariant field[..dp] == old(field[..at]) + version[from..cp]
      invariant forall k :: dp <= k < FIELD ==> field[k] == old(field[k])
    {
      field[dp] := version[cp];
      dp := dp + 1;
      cp := cp + 1;
    }
  }

  /** `version` holds the characters before the terminating NUL; `field` is
      outsname.version.  Without a '(' the step over it leaves the string, where
      this model stops; the loops stay inside exactly if there is one. */
  method ExtractVersion(version: string, field: array<char>) returns (inside: bool)
    requires NUL !in version && field.Length == FIELD
    modifies field
    ensures inside <==> '(' in version
    ensures !inside ==> field[..] == old(field[..])
    ensures inside ==>
      var text := Take(Release(version) + Build(version), FIELD - 1);
      && field[..|text| + 1] == text + [NUL]
      && forall k :: |text| < k < FIELD ==> field[k] == old(field[k])
  {
    hide Find, Take, Release, Build, Open;
    var cp := Skip(version, 0, '(');
    StepsOver(version, cp);
    cp := cp + 1;
    if cp > |version| { return false; }
    ghost var open := cp;
    var dp;
    cp, dp := Copy(version, cp, ')', field, 0);
    ghost var stop := cp;
    cp := Skip(version, cp, '#');
    ghost var hash := cp;
    cp, dp := Copy(version, cp, ':', field, dp);
    Extracted(version, open, stop, hash, cp);
    field[dp] := NUL;
    inside := true;
  }
}
