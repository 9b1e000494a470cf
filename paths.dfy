/** The pieces of Python's `posixpath` and `str` that the file manager uses,
    on paths and names written as strings. */
module Paths {

  const SEP: char := '/'
  const EXT_SEP: char := '.'

  /** Index of the last occurrence of `c` in `s`, or -1 when there is none
      (`str.rfind`). */
  function LastIndexOf(s: string, c: char): (r: int)
    ensures -1 <= r < |s|
    ensures r >= 0 ==> s[r] == c
    ensures forall k :: r < k < |s| ==> s[k] != c
  {
    if s == [] then -1
    else if s[|s| - 1] == c then |s| - 1
    else LastIndexOf(s[..|s| - 1], c)
  }

  predicate AllDots(s: string) {
    forall k :: 0 <= k < |s| ==> s[k] == EXT_SEP
  }

  /** `os.path.splitext`: the extension is the part of the last path
      component from its last dot on, provided something other than a dot
      precedes that dot within the component; otherwise it is empty.
      So ".bashrc" has no extension and "a." has the extension ".".
      The stem and the extension put back together give the name; a
      non-empty extension starts with its only dot and holds no separator. */
  function SplitExt(p: string): (r: (string, string))
    ensures r.0 + r.1 == p
    ensures r.1 != [] ==> r.1[0] == EXT_SEP
    ensures forall k :: 0 <= k < |r.1| ==> r.1[k] != SEP && (k > 0 ==> r.1[k] != EXT_SEP)
  {
    var sepIndex := LastIndexOf(p, SEP);
    var dotIndex := LastIndexOf(p, EXT_SEP);
    if dotIndex > sepIndex && !AllDots(p[sepIndex + 1..dotIndex]) then
      var ext := p[dotIndex..];
      assert forall k :: 0 <= k < |ext| ==> ext[k] == p[dotIndex + k];
      (p[..dotIndex], ext)
    else
      (p, [])
  }

  /** A non-empty extension follows a stem with a character other than a
      dot in the last path component: leading dots alone never make one. */
  lemma SplitExtStem(p: string) returns (k: nat)
    requires SplitExt(p).1 != []
    ensures LastIndexOf(p, SEP) < k < |SplitExt(p).0| && p[k] != EXT_SEP
  {
    var sepIndex := LastIndexOf(p, SEP);
    var dotIndex := LastIndexOf(p, EXT_SEP);
    var split := dotIndex > sepIndex && !AllDots(p[sepIndex + 1..dotIndex]);
    assert SplitExt(p) == if split then (p[..dotIndex], p[dotIndex..]) else (p, []);
    assert split;
    k := NotAllDots(p, sepIndex + 1, dotIndex);
  }

  /** A slice that is not all dots has a character other than a dot. */
  lemma NotAllDots(p: string, i: nat, j: nat) returns (k: nat)
    requires i <= j <= |p| && !AllDots(p[i..j])
    ensures i <= k < j && p[k] != EXT_SEP
  {
    var n :| 0 <= n < j - i && p[i..j][n] != EXT_SEP;
    k := i + n;
  }

  /** A name `stem + ext`, where `ext` is a dot followed by no dot and the
      stem has a character other than a dot, has the extension `ext`. */
  lemma SplitExtOfSuffix(stem: string, ext: string)
    requires exists k :: 0 <= k < |stem| && stem[k] != EXT_SEP
    requires |ext| > 0 && ext[0] == EXT_SEP
    requires forall j :: 0 < j < |ext| ==> ext[j] != EXT_SEP
    requires forall j :: 0 <= j < |stem + ext| ==> (stem + ext)[j] != SEP
    ensures SplitExt(stem + ext) == (stem, ext)
  {
    var p := stem + ext;
    var d := |stem|;
    assert p[d] == EXT_SEP;
    assert forall j :: d < j < |p| ==> p[j] == ext[j - d];
    assert LastIndexOf(p, EXT_SEP) == d;
    var k :| 0 <= k < |stem| && stem[k] != EXT_SEP;
    assert p[..d] == stem && p[d..] == ext;
    assert p[0..d][k] == stem[k];
  }

  /** A name made of one leading dot and no other dot (".bashrc") has no
      extension. */
  lemma HiddenNameHasNoExtension(rest: string)
    requires forall j :: 0 <= j < |rest| ==> rest[j] != EXT_SEP && rest[j] != SEP
    ensures SplitExt([EXT_SEP] + rest).1 == []
  {
    var p := [EXT_SEP] + rest;
    assert p[0] == EXT_SEP;
    assert forall j :: 0 < j < |p| ==> p[j] == rest[j - 1];
    assert LastIndexOf(p, EXT_SEP) == 0;
    assert p[0..0] == [];
  }

  function LowerChar(c: char): char {
    if 'A' <= c <= 'Z' then (c as int + 32) as char else c
  }

  /** `str.lower` on the ASCII letters; every other character is kept. */
  function Lower(s: string): string {
    seq(|s|, i requires 0 <= i < |s| => LowerChar(s[i]))
  }

  /** `sub in s` on strings. */
  predicate Contains(s: string, sub: string) {
    exists i :: 0 <= i <= |s| && OccursAt(s, sub, i)
  }

  predicate OccursAt(s: string, sub: string, i: nat) {
    i + |sub| <= |s| && s[i..i + |sub|] == sub
  }

  /** `posixpath.join(a, b)`: an absolute `b` replaces `a`; otherwise the two
      are joined with exactly one separator unless `a` is empty or already
      ends in one. */
  function Join(a: string, b: string): string {
    if |b| > 0 && b[0] == SEP then b
    else if a == [] || a[|a| - 1] == SEP then a + b
    else a + [SEP] + b
  }

  lemma {:induction false} LastIndexOfLower(p: string, c: char)
    requires c == SEP || c == EXT_SEP
    ensures LastIndexOf(Lower(p), c) == LastIndexOf(p, c)
  {
    if p != [] {
      assert Lower(p)[..|p| - 1] == Lower(p[..|p| - 1]);
      LastIndexOfLower(p[..|p| - 1], c);
    }
  }

  lemma LowerSlice(p: string, i: nat, j: nat)
    requires i <= j <= |p|
    ensures Lower(p)[i..j] == Lower(p[i..j])
  {
  }

  lemma AllDotsLower(s: string)
    ensures AllDots(Lower(s)) == AllDots(s)
  {
    if !AllDots(s) {
      var k :| 0 <= k < |s| && s[k] != EXT_SEP;
      assert Lower(s)[k] != EXT_SEP;
    }
  }

  /** Taking the extension and lower-casing commute: case never moves the
      dot or the separator that decide where the extension starts. */
  lemma ExtensionOfLower(p: string)
    ensures SplitExt(Lower(p)).1 == Lower(SplitExt(p).1)
  {
    var q := Lower(p);
    LastIndexOfLower(p, SEP);
    LastIndexOfLower(p, EXT_SEP);
    var sepIndex := LastIndexOf(p, SEP);
    var dotIndex := LastIndexOf(p, EXT_SEP);
    if dotIndex > sepIndex {
      LowerSlice(p, sepIndex + 1, dotIndex);
      AllDotsLower(p[sepIndex + 1..dotIndex]);
      assert AllDots(q[sepIndex + 1..dotIndex]) == AllDots(p[sepIndex + 1..dotIndex]);
      LowerSlice(p, dotIndex, |p|);
      assert q[dotIndex..] == Lower(p[dotIndex..]);
    } else {
      assert SplitExt(q).1 == [] && SplitExt(p).1 == [];
    }
  }

  /** A substring of a string's suffix is a substring of the string. */
  lemma ContainsInSuffix(s: string, k: nat, sub: string)
    requires k <= |s| && Contains(s[k..], sub)
    ensures Contains(s, sub)
  {
    var i :| 0 <= i <= |s[k..]| && OccursAt(s[k..], sub, i);
    assert s[k + i..k + i + |sub|] == sub;
    assert OccursAt(s, sub, k + i);
  }

  /** A substring of a string's prefix is a substring of the string. */
  lemma ContainsInPrefix(s: string, k: nat, sub: string)
    requires k <= |s| && Contains(s[..k], sub)
    ensures Contains(s, sub)
  {
    var i :| 0 <= i <= |s[..k]| && OccursAt(s[..k], sub, i);
    assert s[i..i + |sub|] == s[..k][i..i + |sub|];
    assert OccursAt(s, sub, i);
  }

  /** Joining never loses the second path: it is always a suffix of the
      result, and an absolute second path is the whole result. */
  lemma JoinSuffix(a: string, b: string)
    ensures |Join(a, b)| >= |b| && Join(a, b)[|Join(a, b)| - |b|..] == b
    ensures |b| > 0 && b[0] == SEP ==> Join(a, b) == b
  {
  }
}
