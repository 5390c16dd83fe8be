/** The string operations of Python that the core relies on: `in`, `find`,
    `split`, `join`, `strip`, `lower`, `str(int)` and the ordering `sorted`
    uses on strings (code point by code point). */
module Text {
  import opened Wrappers

  /** `sub` occurs in `s` starting at index `k`. */
  predicate OccursAt(s: string, sub: string, k: int) {
    0 <= k && k + |sub| <= |s| && s[k..k + |sub|] == sub
  }

  /** The first index at or after `from` where `sub` occurs in `s`. */
  function IndexFrom(s: string, sub: string, from: nat): (r: Option<nat>)
    requires from <= |s|
    ensures r.Some? ==> from <= r.value && OccursAt(s, sub, r.value)
    ensures r.Some? ==> forall k :: from <= k < r.value ==> !OccursAt(s, sub, k)
    ensures r.None? ==> forall k :: from <= k ==> !OccursAt(s, sub, k)
    decreases |s| - from
  {
    if OccursAt(s, sub, from) then Some(from)
    else if from + |sub| >= |s| then None
    else IndexFrom(s, sub, from + 1)
  }

  /** Python's `s.find(sub)`, with absence in place of -1. */
  function IndexOf(s: string, sub: string): (r: Option<nat>)
    ensures r.Some? ==> OccursAt(s, sub, r.value)
    ensures r.Some? ==> forall k :: 0 <= k < r.value ==> !OccursAt(s, sub, k)
    ensures r.None? ==> forall k :: !OccursAt(s, sub, k)
  {
    IndexFrom(s, sub, 0)
  }

  /** Python's `sub in s`. */
  predicate Contains(s: string, sub: string)
    ensures Contains(s, sub) <==> exists k :: OccursAt(s, sub, k)
  {
    IndexOf(s, sub).Some?
  }

  /** Python's `s.split(sep)` for a non-empty separator: the pieces between
      the non-overlapping occurrences of `sep`, scanned from the left. */
  function Split(s: string, sep: string): (r: seq<string>)
    requires |sep| > 0
    ensures |r| >= 1
    decreases |s|
  {
    match IndexOf(s, sep)
    case None => [s]
    case Some(i) => [s[..i]] + Split(s[i + |sep|..], sep)
  }

  /** The first piece of a split is everything before the first separator. */
  lemma SplitHead(s: string, sep: string)
    requires |sep| > 0
    ensures IndexOf(s, sep).None? ==> Split(s, sep)[0] == s
    ensures IndexOf(s, sep).Some? ==> Split(s, sep)[0] == s[..IndexOf(s, sep).value]
  {
  }

  /** The second piece of a split is the first piece of what follows the
      first separator. */
  lemma SplitSecond(s: string, sep: string)
    requires |sep| > 0 && IndexOf(s, sep).Some?
    ensures |Split(s, sep)| >= 2
    ensures Split(s, sep)[1] == Split(s[IndexOf(s, sep).value + |sep|..], sep)[0]
  {
    var i := IndexOf(s, sep).value;
    var rest := Split(s[i + |sep|..], sep);
    assert |rest| >= 1;
  }

  /** An occurrence in a prefix is an occurrence that ends inside it; so
      the first occurrence in the prefix is the first one of the whole, if
      that one fits. */
  lemma IndexOfPrefix(s: string, sub: string, m: nat)
    requires m <= |s|
    ensures IndexOf(s, sub).Some? && IndexOf(s, sub).value + |sub| <= m ==> IndexOf(s[..m], sub) == IndexOf(s, sub)
    ensures IndexOf(s, sub).None? || IndexOf(s, sub).value + |sub| > m ==> IndexOf(s[..m], sub).None?
  {
    forall k | 0 <= k && k + |sub| <= m ensures OccursAt(s[..m], sub, k) <==> OccursAt(s, sub, k) {
      assert s[..m][k..k + |sub|] == s[k..k + |sub|];
    }
    var p := IndexOf(s[..m], sub);
    if p.Some? {
      assert OccursAt(s, sub, p.value);
    }
  }

  /** Python's `sep.join(parts)`. */
  function Join(sep: string, parts: seq<string>): string {
    if |parts| == 0 then ""
    else if |parts| == 1 then parts[0]
    else parts[0] + sep + Join(sep, parts[1..])
  }

  /** An occurrence in `a` is still one in `a + b`. */
  lemma ContainsExtend(a: string, b: string, sub: string)
    requires Contains(a, sub)
    ensures Contains(a + b, sub)
  {
    var p :| OccursAt(a, sub, p);
    assert (a + b)[p..p + |sub|] == a[p..p + |sub|];
    assert OccursAt(a + b, sub, p);
  }

  /** An occurrence in `b` is still one in `a + b`, moved by `|a|`. */
  lemma ContainsShift(a: string, b: string, sub: string)
    requires Contains(b, sub)
    ensures Contains(a + b, sub)
  {
    var p :| OccursAt(b, sub, p);
    assert (a + b)[|a| + p..|a| + p + |sub|] == b[p..p + |sub|];
    assert OccursAt(a + b, sub, |a| + p);
  }

  /** Every part occurs in the joined text. */
  lemma {:induction false} JoinContains(sep: string, parts: seq<string>, k: int)
    requires 0 <= k < |parts|
    ensures Contains(Join(sep, parts), parts[k])
    decreases |parts|
  {
    if |parts| == 1 {
      assert OccursAt(Join(sep, parts), parts[k], 0);
    } else if k == 0 {
      assert OccursAt(parts[0], parts[0], 0);
      ContainsExtend(parts[0], sep + Join(sep, parts[1..]), parts[0]);
      assert parts[0] + (sep + Join(sep, parts[1..])) == Join(sep, parts);
    } else {
      JoinContains(sep, parts[1..], k - 1);
      assert parts[1..][k - 1] == parts[k];
      ContainsShift(parts[0] + sep, Join(sep, parts[1..]), parts[k]);
    }
  }

  lemma JoinContainsAll(sep: string, parts: seq<string>)
    ensures forall k :: 0 <= k < |parts| ==> Contains(Join(sep, parts), parts[k])
  {
    forall k | 0 <= k < |parts| ensures Contains(Join(sep, parts), parts[k]) {
      JoinContains(sep, parts, k);
    }
  }

  /** The characters Python's `str.strip()` removes (`str.isspace`). */
  predicate IsSpace(c: char) {
    || ('\U{9}' <= c <= '\U{D}')
    || ('\U{1C}' <= c <= '\U{20}')
    || c == '\U{85}' || c == '\U{A0}' || c == '\U{1680}'
    || ('\U{2000}' <= c <= '\U{200A}')
    || c == '\U{2028}' || c == '\U{2029}' || c == '\U{202F}'
    || c == '\U{205F}' || c == '\U{3000}'
  }

  function TrimLeft(s: string): (r: string)
    ensures |r| <= |s| && r == s[|s| - |r|..]
    ensures |r| > 0 ==> !IsSpace(r[0])
    ensures forall k :: 0 <= k < |s| - |r| ==> IsSpace(s[k])
  {
    if |s| > 0 && IsSpace(s[0]) then
      var r := TrimLeft(s[1..]);
      assert s[1..][|s| - 1 - |r|..] == s[|s| - |r|..];
      assert forall k :: 1 <= k < |s| ==> s[1..][k - 1] == s[k];
      r
    else s
  }

  function TrimRight(s: string): (r: string)
    ensures |r| <= |s| && r == s[..|r|]
    ensures |r| > 0 ==> !IsSpace(r[|r| - 1])
    ensures forall k :: |r| <= k < |s| ==> IsSpace(s[k])
  {
    if |s| > 0 && IsSpace(s[|s| - 1]) then
      var r := TrimRight(s[..|s| - 1]);
      assert s[..|s| - 1][..|r|] == s[..|r|];
      assert forall k :: 0 <= k < |s| - 1 ==> s[..|s| - 1][k] == s[k];
      r
    else s
  }

  /** Python's `s.strip()`: `s` without its leading and trailing whitespace. */
  function Strip(s: string): (r: string)
    ensures |r| <= |s|
    ensures |r| > 0 ==> !IsSpace(r[0]) && !IsSpace(r[|r| - 1])
  {
    TrimRight(TrimLeft(s))
  }

  /** `lower()` on one character; only the ASCII letters are folded. */
  function LowerChar(c: char): char {
    if 'A' <= c <= 'Z' then (c as int + 32) as char else c
  }

  /** `s.lower()`, character by character. */
  function Lower(s: string): (r: string)
    ensures |r| == |s|
    ensures forall i :: 0 <= i < |s| ==> r[i] == LowerChar(s[i])
  {
    seq(|s|, i requires 0 <= i < |s| => LowerChar(s[i]))
  }

  /** Lower-casing neither creates nor destroys an occurrence of a marker
      that holds no ASCII letter (a Hangul word, say). */
  lemma LowerKeepsMarker(s: string, m: string)
    requires forall t :: 0 <= t < |m| ==> !('A' <= m[t] <= 'Z') && !('a' <= m[t] <= 'z')
    ensures Contains(Lower(s), m) <==> Contains(s, m)
  {
    var l := Lower(s);
    forall k | 0 <= k && k + |m| <= |s|
      ensures OccursAt(l, m, k) <==> OccursAt(s, m, k)
    {
      if OccursAt(s, m, k) {
        forall t | 0 <= t < |m| ensures l[k..k + |m|][t] == m[t] {
          assert s[k..k + |m|][t] == s[k + t];
        }
        assert l[k..k + |m|] == m;
      }
      if OccursAt(l, m, k) {
        forall t | 0 <= t < |m| ensures s[k..k + |m|][t] == m[t] {
          assert l[k..k + |m|][t] == l[k + t] == LowerChar(s[k + t]);
        }
        assert s[k..k + |m|] == m;
      }
    }
    if Contains(s, m) {
      var k :| OccursAt(s, m, k);
      assert OccursAt(l, m, k);
    }
    if Contains(l, m) {
      var k :| OccursAt(l, m, k);
      assert OccursAt(s, m, k);
    }
  }

  function DigitChar(d: nat): char
    requires d < 10
  {
    "0123456789"[d]
  }

  /** Python's `str(n)` for a natural number: its decimal digits. */
  function NatToString(n: nat): (r: string)
    ensures |r| >= 1
    ensures forall i :: 0 <= i < |r| ==> '0' <= r[i] <= '9'
  {
    if n < 10 then [DigitChar(n)] else NatToString(n / 10) + [DigitChar(n % 10)]
  }

  /** Python's `str(i)` for an integer. */
  function IntToString(i: int): string {
    if i < 0 then "-" + NatToString(-i) else NatToString(i)
  }

  /** Python's `<=` on strings: lexicographic by code point. */
  predicate StrLe(a: string, b: string)
    decreases |a|
  {
    |a| == 0 || (|b| > 0 && (a[0] < b[0] || (a[0] == b[0] && StrLe(a[1..], b[1..]))))
  }

  lemma {:induction false} StrLeTotal(a: string, b: string)
    ensures StrLe(a, b) || StrLe(b, a)
    decreases |a|
  {
    if |a| > 0 && |b| > 0 && a[0] == b[0] {
      StrLeTotal(a[1..], b[1..]);
    }
  }

  lemma {:induction false} StrLeReflexive(a: string)
    ensures StrLe(a, a)
    decreases |a|
  {
    if |a| > 0 { StrLeReflexive(a[1..]); }
  }

  lemma {:induction false} StrLeAntisymmetric(a: string, b: string)
    requires StrLe(a, b) && StrLe(b, a)
    ensures a == b
    decreases |a|
  {
    if |a| > 0 {
      StrLeAntisymmetric(a[1..], b[1..]);
      assert a == [a[0]] + a[1..] && b == [b[0]] + b[1..];
    }
  }

  lemma {:induction false} StrLeTransitive(a: string, b: string, c: string)
    requires StrLe(a, b) && StrLe(b, c)
    ensures StrLe(a, c)
    decreases |a|
  {
    if |a| > 0 && a[0] == b[0] && b[0] == c[0] {
      StrLeTransitive(a[1..], b[1..], c[1..]);
    }
  }

  /** `m` is the least element of `S`. */
  predicate IsLeast(m: string, S: set<string>) {
    m in S && forall y :: y in S ==> StrLe(m, y)
  }

  lemma LeastExists(S: set<string>)
    requires S != {}
    ensures exists m :: IsLeast(m, S)
    decreases S
  {
    var x :| x in S;
    if S - {x} == {} {
      assert S == {x};
      StrLeReflexive(x);
      assert IsLeast(x, S);
    } else {
      LeastExists(S - {x});
      var m :| IsLeast(m, S - {x});
      StrLeTotal(m, x);
      if StrLe(m, x) {
        assert IsLeast(m, S);
      } else {
        forall y | y in S ensures StrLe(x, y) {
          if y != x { StrLeTransitive(x, m, y); } else { StrLeReflexive(x); }
        }
        assert IsLeast(x, S);
      }
    }
  }

  lemma LeastUnique(m: string, n: string, S: set<string>)
    requires IsLeast(m, S) && IsLeast(n, S)
    ensures m == n
  {
    StrLeAntisymmetric(m, n);
  }

  /** Every two positions of `r` are in increasing order, so `r` has no duplicates. */
  predicate StrictlySorted(r: seq<string>) {
    forall i, j :: 0 <= i < j < |r| ==> StrLe(r[i], r[j]) && r[i] != r[j]
  }

  /** Python's `sorted(S)` for a set of strings. */
  ghost function SortedOf(S: set<string>): seq<string>
    decreases S
  {
    if S == {} then []
    else
      LeastExists(S);
      var m :| IsLeast(m, S);
      [m] + SortedOf(S - {m})
  }

  lemma SortedOfUnfold(S: set<string>, m: string)
    requires IsLeast(m, S)
    ensures SortedOf(S) == [m] + SortedOf(S - {m})
  {
    forall n | IsLeast(n, S) ensures n == m { LeastUnique(n, m, S); }
  }

  lemma {:induction false} SortedOfLength(S: set<string>)
    ensures |SortedOf(S)| == |S|
    decreases S
  {
    if S != {} {
      LeastExists(S);
      var m :| IsLeast(m, S);
      SortedOfUnfold(S, m);
      SortedOfLength(S - {m});
    }
  }

  lemma {:induction false} SortedOfMembers(S: set<string>)
    ensures forall x :: x in SortedOf(S) <==> x in S
    decreases S
  {
    if S != {} {
      LeastExists(S);
      var m :| IsLeast(m, S);
      SortedOfUnfold(S, m);
      SortedOfMembers(S - {m});
    }
  }

  lemma {:induction false} SortedOfSorted(S: set<string>)
    ensures StrictlySorted(SortedOf(S))
    decreases S
  {
    if S != {} {
      LeastExists(S);
      var m :| IsLeast(m, S);
      SortedOfUnfold(S, m);
      var rest := SortedOf(S - {m});
      SortedOfSorted(S - {m});
      SortedOfMembers(S - {m});
      var r := [m] + rest;
      forall i, j | 0 <= i < j < |r| ensures StrLe(r[i], r[j]) && r[i] != r[j] {
        if i == 0 {
          assert r[j] == rest[j - 1] && rest[j - 1] in S - {m};
        } else {
          assert r[i] == rest[i - 1] && r[j] == rest[j - 1];
        }
      }
    }
  }

  /** `sorted(S)` lists every element of `S` exactly once, in increasing order. */
  lemma SortedOfSpec(S: set<string>)
    ensures |SortedOf(S)| == |S|
    ensures forall x :: x in SortedOf(S) <==> x in S
    ensures StrictlySorted(SortedOf(S))
  {
    SortedOfLength(S);
    SortedOfMembers(S);
    SortedOfSorted(S);
  }

  /** Computes `sorted(S)` by taking the least remaining element each time. */
  method SortedList(S: set<string>) returns (r: seq<string>)
    ensures r == SortedOf(S)
  {
    r := [];
    var rest := S;
    while rest != {}
      invariant r + SortedOf(rest) == SortedOf(S)
      decreases rest
    {
      LeastExists(rest);
      var m :| m in rest && IsLeast(m, rest);
      SortedOfUnfold(rest, m);
      r := r + [m];
      rest := rest - {m};
    }
  }
}
