/** Text operations the header rules are written in. */
module HeaderText {
  import opened Common

  function Lower(s: string): (r: string)
    ensures |r| == |s| && forall i :: 0 <= i < |s| ==> r[i] == LowerChar(s[i])
  {
    seq(|s|, i requires 0 <= i < |s| => LowerChar(s[i]))
  }

  predicate HasUpper(s: string) {
    exists i :: 0 <= i < |s| && 'A' <= s[i] <= 'Z'
  }

  predicate EqIgnoreCase(a: string, b: string) {
    |a| == |b| && forall i :: 0 <= i < |a| ==> LowerChar(a[i]) == LowerChar(b[i])
  }

  lemma LowerIsIdempotent(s: string)
    ensures Lower(Lower(s)) == Lower(s) && !HasUpper(Lower(s))
  {
  }

  lemma EqIgnoreCaseIsLower(a: string, b: string)
    ensures EqIgnoreCase(a, b) <==> Lower(a) == Lower(b)
  {
    if Lower(a) == Lower(b) {
      assert forall i :: 0 <= i < |a| ==> Lower(a)[i] == Lower(b)[i];
    }
  }

  /** The white space `trim` removes, by code point. */
  predicate IsSpace(c: char) {
    var n := c as int;
    || 0x09 <= n <= 0x0D || n == 0x20 || n == 0x85 || n == 0xA0 || n == 0x1680 || 0x2000 <= n <= 0x200A
    || n == 0x2028 || n == 0x2029 || n == 0x202F || n == 0x205F || n == 0x3000
  }

  function TrimStart(s: string): string {
    if s != [] && IsSpace(s[0]) then TrimStart(s[1..]) else s
  }

  function TrimEnd(s: string): string {
    if s != [] && IsSpace(s[|s| - 1]) then TrimEnd(s[..|s| - 1]) else s
  }

  function Trim(s: string): string {
    TrimEnd(TrimStart(s))
  }

  /** The part before the first separator. */
  function Head(s: string, sep: char): string {
    if s == [] || s[0] == sep then [] else [s[0]] + Head(s[1..], sep)
  }

  function Split(s: string, sep: char): (parts: seq<string>)
    ensures |parts| >= 1
  {
    if s == [] then [[]]
    else if s[0] == sep then [[]] + Split(s[1..], sep)
    else var rest := Split(s[1..], sep); [[s[0]] + rest[0]] + rest[1..]
  }

  predicate StartsWith(s: string, prefix: string) {
    prefix <= s
  }

  // ----- what the text operations mean on the characters of a value -----

  predicate Blank(s: string, i: nat, j: nat)
    requires j <= |s|
  {
    forall k :: i <= k < j ==> IsSpace(s[k])
  }

  /** No blank at either end of `s[i..j]`. */
  predicate Tight(s: string, i: nat, j: nat)
    requires j <= |s|
  {
    i < j ==> !IsSpace(s[i]) && !IsSpace(s[j - 1])
  }

  predicate Without(s: string, sep: char, i: nat, j: nat)
    requires j <= |s|
  {
    forall k :: i <= k < j ==> s[k] != sep
  }

  /** Slices of slices. */
  lemma SliceOfSlice<T>(s: seq<T>, i: nat, j: nat, p: nat, q: nat)
    requires i <= j <= |s| && p <= q <= j - i
    ensures s[i..j][p..q] == s[i + p..i + q]
  {
    assert forall k :: 0 <= k < q - p ==> s[i..j][p..q][k] == s[i..j][p + k] == s[i + p..i + q][k];
  }

  lemma {:induction false} TrimStartCuts(s: string) returns (i: nat)
    ensures i <= |s| && TrimStart(s) == s[i..] && Blank(s, 0, i) && (i < |s| ==> !IsSpace(s[i]))
  {
    if s != [] && IsSpace(s[0]) {
      var k := TrimStartCuts(s[1..]);
      i := k + 1;
      assert forall m :: 1 <= m < i ==> s[m] == s[1..][m - 1];
      SliceOfSlice(s, 1, |s|, k, |s| - 1);
    } else {
      i := 0;
      assert s[0..] == s;
    }
  }

  lemma {:induction false} TrimEndCuts(s: string) returns (j: nat)
    ensures j <= |s| && TrimEnd(s) == s[..j] && Blank(s, j, |s|) && (j > 0 ==> !IsSpace(s[j - 1]))
  {
    if s != [] && IsSpace(s[|s| - 1]) {
      j := TrimEndCuts(s[..|s| - 1]);
      assert forall m :: 0 <= m < |s| - 1 ==> s[m] == s[..|s| - 1][m];
      SliceOfSlice(s, 0, |s| - 1, 0, j);
    } else {
      j := |s|;
      assert s[..|s|] == s;
    }
  }

  /** Trimming cuts out the stretch between the blanks at the two ends. */
  lemma TrimExactly(s: string) returns (i: nat, j: nat)
    ensures i <= j <= |s| && Trim(s) == s[i..j]
    ensures Blank(s, 0, i) && Blank(s, j, |s|) && Tight(s, i, j)
  {
    i := TrimStartCuts(s);
    var k := TrimEndCuts(s[i..]);
    j := i + k;
    SliceOfSlice(s, i, |s|, 0, k);
    assert forall m :: 0 <= m < |s| - i ==> s[i..][m] == s[i + m];
    assert forall m :: j <= m < |s| ==> s[m] == s[i..][m - i];
  }

  /** There is only one such stretch that is not empty. */
  lemma TrimIsUnique(s: string, a: nat, b: nat)
    requires a < b <= |s| && Blank(s, 0, a) && Blank(s, b, |s|) && Tight(s, a, b)
    ensures Trim(s) == s[a..b]
  {
    var i, j := TrimExactly(s);
  }

  function Join(parts: seq<string>, sep: char): string
    requires |parts| >= 1
  {
    if |parts| == 1 then parts[0] else parts[0] + [sep] + Join(parts[1..], sep)
  }

  /** Splitting loses nothing but the separators. */
  lemma {:induction false} SplitJoins(s: string, sep: char)
    ensures Join(Split(s, sep), sep) == s
    ensures forall k :: 0 <= k < |Split(s, sep)| ==> Without(Split(s, sep)[k], sep, 0, |Split(s, sep)[k]|)
  {
    if s != [] {
      var rest := Split(s[1..], sep);
      SplitJoins(s[1..], sep);
      if s[0] == sep {
        assert Split(s, sep)[1..] == rest;
      } else {
        assert Split(s, sep)[1..] == rest[1..];
        assert s == [s[0]] + s[1..];
      }
    }
  }

  lemma {:induction false} HeadIsFirstPart(s: string, sep: char)
    ensures Head(s, sep) == Split(s, sep)[0]
  {
    if s != [] && s[0] != sep {
      HeadIsFirstPart(s[1..], sep);
    }
  }

  /** `s[i..j]` lies between two separators, or a separator and an end. */
  predicate Between(s: string, sep: char, i: nat, j: nat) {
    && i <= j <= |s| && Without(s, sep, i, j)
    && (i == 0 || s[i - 1] == sep) && (j == |s| || s[j] == sep)
  }

  lemma SplitStep(s: string, sep: char, k: nat)
    requires s != [] && k < |Split(s[1..], sep)|
    ensures var parts, rest := Split(s, sep), Split(s[1..], sep);
            if s[0] == sep then |parts| == |rest| + 1 && parts[k + 1] == rest[k]
            else |parts| == |rest| && parts[k] == if k == 0 then [s[0]] + rest[0] else rest[k]
  {
  }

  lemma {:induction false} PartIsBetween(s: string, sep: char, k: nat) returns (i: nat, j: nat)
    requires k < |Split(s, sep)|
    ensures Between(s, sep, i, j) && s[i..j] == Split(s, sep)[k] && (k == 0 <==> i == 0)
  {
    if s == [] || (s[0] == sep && k == 0) {
      i, j := 0, 0;
      assert s[0..0] == [] == Split(s, sep)[0];
      return;
    }
    var k' := if s[0] == sep then k - 1 else k;
    SplitStep(s, sep, k');
    var p, q := PartIsBetween(s[1..], sep, k');
    BetweenBehindOne(s, sep, p, q);
    j := q + 1;
    if s[0] != sep && k == 0 {
      i := 0;
      WithFirst(s, q);
    } else {
      i := p + 1;
      SliceOfRest(s, p, q);
    }
  }

  lemma SliceOfRest(s: string, p: nat, q: nat)
    requires s != [] && p <= q <= |s| - 1
    ensures s[1..][p..q] == s[p + 1..q + 1]
  {
    SliceOfSlice(s, 1, |s|, p, q);
    assert s[1..|s|] == s[1..];
  }

  lemma WithFirst(s: string, n: nat)
    requires s != [] && n <= |s| - 1
    ensures [s[0]] + s[1..][0..n] == s[0..n + 1]
  {
  }

  /** A stretch of the rest is one of the whole, or becomes one with the first character. */
  lemma BetweenBehindOne(s: string, sep: char, p: nat, q: nat)
    requires s != [] && p <= q <= |s| - 1
    ensures p > 0 || s[0] == sep ==> (Between(s[1..], sep, p, q) <==> Between(s, sep, p + 1, q + 1))
    ensures p == 0 && s[0] != sep ==> (Between(s[1..], sep, p, q) <==> Between(s, sep, 0, q + 1))
  {
    assert forall m :: 0 <= m < |s| - 1 ==> s[1..][m] == s[m + 1];
    assert forall m :: 1 <= m < |s| ==> s[m] == s[1..][m - 1];
  }

  lemma {:induction false} BetweenIsPart(s: string, sep: char, i: nat, j: nat) returns (k: nat)
    requires Between(s, sep, i, j)
    ensures k < |Split(s, sep)| && Split(s, sep)[k] == s[i..j] && (k == 0 <==> i == 0)
  {
    if s == [] || (s[0] == sep && i == 0) {
      assert s[i..j] == [] == Split(s, sep)[0];
      return 0;
    }
    if i == 0 {
      BetweenBehindOne(s, sep, 0, j - 1);
      k := BetweenIsPart(s[1..], sep, 0, j - 1);
      SplitStep(s, sep, k);
      WithFirst(s, j - 1);
    } else {
      BetweenBehindOne(s, sep, i - 1, j - 1);
      k := BetweenIsPart(s[1..], sep, i - 1, j - 1);
      SplitStep(s, sep, k);
      SliceOfRest(s, i - 1, j - 1);
      if s[0] == sep {
        k := k + 1;
      }
    }
  }

  /** `s` is the lower-case `name` in some mixture of cases. */
  predicate Spells(s: string, name: string) {
    && |s| == |name|
    && (forall i :: 0 <= i < |s| ==>
          if 'A' <= s[i] <= 'Z' then name[i] as int == s[i] as int + 32 else name[i] == s[i])
  }

  lemma SpellsExactly(s: string, name: string)
    ensures Spells(s, name) <==> Lower(s) == name
  {
    if Spells(s, name) {
      assert forall i :: 0 <= i < |s| ==> Lower(s)[i] == name[i];
    }
  }

  /** Between two separators the value says `name`, in any case, with nothing but blanks around it. */
  ghost predicate Says(s: string, sep: char, name: string) {
    exists i: nat, j: nat, a: nat, b: nat :: SaysAt(s, sep, name, i, j, a, b)
  }

  predicate SaysAt(s: string, sep: char, name: string, i: nat, j: nat, a: nat, b: nat) {
    && Between(s, sep, i, j) && i <= a <= b <= j
    && Blank(s, i, a) && Blank(s, b, j) && Tight(s, a, b) && Spells(s[a..b], name)
  }

  /** A part of the split, trimmed and lowered, is `name` exactly where the value says it. */
  lemma SaysExactly(s: string, sep: char, name: string)
    requires name != ""
    ensures Says(s, sep, name) <==>
            exists k :: 0 <= k < |Split(s, sep)| && Lower(Trim(Split(s, sep)[k])) == name
  {
    if k :| 0 <= k < |Split(s, sep)| && Lower(Trim(Split(s, sep)[k])) == name {
      PartSays(s, sep, name, k);
    }
    if Says(s, sep, name) {
      var i: nat, j: nat, a: nat, b: nat :| SaysAt(s, sep, name, i, j, a, b);
      var k := SaidIsPart(s, sep, name, i, j, a, b);
    }
  }

  lemma PartSays(s: string, sep: char, name: string, k: nat)
    requires k < |Split(s, sep)| && Lower(Trim(Split(s, sep)[k])) == name
    ensures Says(s, sep, name)
  {
    var i, j := PartIsBetween(s, sep, k);
    var p, q := TrimExactly(s[i..j]);
    BlanksOfSlice(s, i, j, p, q);
    SliceOfSlice(s, i, j, p, q);
    SpellsExactly(s[i + p..i + q], name);
    assert SaysAt(s, sep, name, i, j, i + p, i + q);
  }

  lemma BlanksOfSlice(s: string, i: nat, j: nat, p: nat, q: nat)
    requires i <= j <= |s| && p <= q <= j - i
    ensures Blank(s[i..j], 0, p) <==> Blank(s, i, i + p)
    ensures Blank(s[i..j], q, j - i) <==> Blank(s, i + q, j)
    ensures Tight(s[i..j], p, q) <==> Tight(s, i + p, i + q)
  {
    assert forall m :: 0 <= m < j - i ==> s[i..j][m] == s[i + m];
    assert forall m :: i <= m < j ==> s[m] == s[i..j][m - i];
  }

  lemma SaidIsPart(s: string, sep: char, name: string, i: nat, j: nat, a: nat, b: nat) returns (k: nat)
    requires name != "" && SaysAt(s, sep, name, i, j, a, b)
    ensures k < |Split(s, sep)| && Lower(Trim(Split(s, sep)[k])) == name
  {
    k := BetweenIsPart(s, sep, i, j);
    BlanksOfSlice(s, i, j, a - i, b - i);
    TrimIsUnique(s[i..j], a - i, b - i);
    SliceOfSlice(s, i, j, a - i, b - i);
    SpellsExactly(s[a..b], name);
  }
}
