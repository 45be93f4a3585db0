/** Text primitives used by the documentation generator: ordinal substring
    search (String.IndexOf / LastIndexOf), String.Split on one character,
    String.Join, String.Trim, and the decimal rendering of an int as used by
    string interpolation. */
module Strings {
  import opened Wrappers

  /** True when `pat` occurs in `s` starting at index `i`. */
  predicate OccursAt(s: string, pat: string, i: int) {
    0 <= i && i + |pat| <= |s| && s[i..i + |pat|] == pat
  }

  ghost predicate Occurs(s: string, pat: string) {
    exists i :: OccursAt(s, pat, i)
  }

  /** Index of the first occurrence of `pat` at or after `from`, or -1. */
  function IndexOfFrom(s: string, pat: string, from: nat): (k: int)
    requires from <= |s|
    ensures k == -1 || from <= k
    ensures k >= 0 ==> OccursAt(s, pat, k)
    ensures k >= 0 ==> forall j | from <= j < k :: !OccursAt(s, pat, j)
    ensures k == -1 ==> forall j | from <= j :: !OccursAt(s, pat, j)
    decreases |s| - from
  {
    if from + |pat| > |s| then -1
    else if s[from..from + |pat|] == pat then from
    else IndexOfFrom(s, pat, from + 1)
  }

  /** String.IndexOf(pat), compared ordinally: the first occurrence, or -1.
      The empty pattern is found at 0. */
  function IndexOf(s: string, pat: string): (k: int)
    ensures -1 <= k <= |s|
    ensures k == -1 <==> !Occurs(s, pat)
    ensures k >= 0 ==> OccursAt(s, pat, k) && forall j | 0 <= j < k :: !OccursAt(s, pat, j)
  {
    var k := IndexOfFrom(s, pat, 0);
    assert k >= 0 ==> OccursAt(s, pat, k);
    k
  }

  /** String.IndexOf(char): the first index holding `c`, or -1. */
  function IndexOfChar(s: string, c: char): (k: int)
    ensures -1 <= k < |s|
    ensures k == -1 <==> c !in s
    ensures k >= 0 ==> s[k] == c && c !in s[..k]
  {
    if |s| == 0 then -1
    else if s[0] == c then 0
    else
      var k := IndexOfChar(s[1..], c);
      assert s == [s[0]] + s[1..];
      if k == -1 then -1 else 1 + k
  }

  /** String.LastIndexOf(char): the last index holding `c`, or -1. */
  function LastIndexOfChar(s: string, c: char): (k: int)
    ensures -1 <= k < |s|
    ensures k == -1 <==> c !in s
    ensures k >= 0 ==> s[k] == c && c !in s[k + 1..]
  {
    if |s| == 0 then -1
    else if s[|s| - 1] == c then |s| - 1
    else
      var k := LastIndexOfChar(s[..|s| - 1], c);
      assert s == s[..|s| - 1] + [s[|s| - 1]];
      if k == -1 then -1 else (assert s[k + 1..] == s[..|s| - 1][k + 1..] + [s[|s| - 1]]; k)
  }

  predicate StartsWith(s: string, prefix: string) {
    |prefix| <= |s| && s[..|prefix|] == prefix
  }

  /** s ends with suffix. */
  predicate EndsWith(s: string, suffix: string) {
    |suffix| <= |s| && s[|s| - |suffix|..] == suffix
  }

  /** A prefix of `a` is a prefix of `a + b`. */
  lemma StartsWithConcat(a: string, b: string, prefix: string)
    requires StartsWith(a, prefix)
    ensures StartsWith(a + b, prefix)
  {
    assert (a + b)[..|prefix|] == a[..|prefix|];
  }

  /** The first occurrence of `c` in `a + [c] + b` is at `|a|` when `a` has none. */
  lemma IndexOfCharSplit(a: string, c: char, b: string)
    requires c !in a
    ensures IndexOfChar(a + [c] + b, c) == |a|
  {
    var s := a + [c] + b;
    var k := IndexOfChar(s, c);
    assert s[|a|] == c;
  }

  /** The last occurrence of `c` in `a + [c] + b` is at `|a|` when `b` has none. */
  lemma LastIndexOfCharSplit(a: string, c: char, b: string)
    requires c !in b
    ensures LastIndexOfChar(a + [c] + b, c) == |a|
  {
    var s := a + [c] + b;
    var k := LastIndexOfChar(s, c);
    assert s[|a|] == c;
  }

  /** When the first character of `p` does not recur in `p` and `p` does not
      occur in `a`, the first occurrence of `p` in `a + p + b` is right after `a`. */
  lemma IndexOfAfter(a: string, p: string, b: string)
    requires |p| > 0 && p[0] !in p[1..]
    requires !Occurs(a, p)
    ensures IndexOf(a + p + b, p) == |a|
  {
    var s := a + p + b;
    assert s[|a|..|a| + |p|] == p;
    assert OccursAt(s, p, |a|);
    var k := IndexOf(s, p);
    if k < |a| {
      if k + |p| <= |a| {
        assert a[k..k + |p|] == s[k..k + |p|];
        assert OccursAt(a, p, k);
      }
    }
  }

  /** ReplaceFirst(s, oldValue, newValue): `s` with its first occurrence of
      `oldValue` (ordinal search) replaced by `newValue`; `s` itself when
      there is none. */
  function ReplaceFirst(s: string, oldValue: string, newValue: string): (r: string)
    ensures !Occurs(s, oldValue) ==> r == s
    ensures Occurs(s, oldValue) ==> |r| == |s| - |oldValue| + |newValue|
  {
    var k := IndexOf(s, oldValue);
    if k == -1 then s
    else s[..k] + newValue + s[k + |oldValue|..]
  }

  /** Where the first occurrence sits right after `p`, ReplaceFirst swaps
      exactly that occurrence and keeps what is around it. */
  lemma ReplaceFirstAt(p: string, oldValue: string, q: string, newValue: string)
    requires forall j | 0 <= j < |p| :: !OccursAt(p + oldValue + q, oldValue, j)
    ensures ReplaceFirst(p + oldValue + q, oldValue, newValue) == p + newValue + q
  {
    var s := p + oldValue + q;
    assert s[|p|..|p| + |oldValue|] == oldValue;
    assert OccursAt(s, oldValue, |p|);
    var k := IndexOf(s, oldValue);
    assert k == |p|;
    assert s[..k] == p;
    assert s[k + |oldValue|..] == q;
  }

  /** One mismatching character rules an occurrence out. */
  lemma MismatchAt(s: string, pat: string, j: nat, d: nat)
    requires d < |pat| && j + d < |s| && s[j + d] != pat[d]
    ensures !OccursAt(s, pat, j)
  {
    if j + |pat| <= |s| {
      assert s[j..j + |pat|][d] == s[j + d];
    }
  }

  /** Number of occurrences of the character `c` in `s`. */
  function Count(s: string, c: char): nat {
    if |s| == 0 then 0 else (if s[0] == c then 1 else 0) + Count(s[1..], c)
  }

  lemma CountConcat(a: string, b: string, c: char)
    ensures Count(a + b, c) == Count(a, c) + Count(b, c)
  {
    if |a| == 0 {
      assert a + b == b;
    } else {
      assert (a + b)[1..] == a[1..] + b;
    }
  }

  lemma CountAbsent(s: string, c: char)
    requires c !in s
    ensures Count(s, c) == 0
  {
    if |s| > 0 {
      assert c !in s[1..];
    }
  }

  /** String.Split(c): the maximal `c`-free pieces between separators; an empty
      input gives one empty piece. */
  function Split(s: string, c: char): (r: seq<string>)
    ensures |r| > 0
    ensures forall i | 0 <= i < |r| :: c !in r[i]
    ensures |r| == Count(s, c) + 1
  {
    if |s| == 0 then [""]
    else
      var rest := Split(s[1..], c);
      if s[0] == c then [""] + rest
      else [[s[0]] + rest[0]] + rest[1..]
  }

  /** Concatenation facts stated over variables, so that long literal
      operands need not be compared element by element. */
  lemma ConcatAssoc<T>(a: seq<T>, b: seq<T>, c: seq<T>)
    ensures (a + b) + c == a + (b + c)
  {
  }

  lemma ConcatEmpty<T>(x: seq<T>)
    ensures [] + x == x && x + [] == x
  {
  }

  /** The sequence of `f` applied to each element, in order. */
  function Map<A, B>(f: A -> B, xs: seq<A>): (r: seq<B>)
    ensures |r| == |xs| && forall i | 0 <= i < |xs| :: r[i] == f(xs[i])
  {
    seq(|xs|, i requires 0 <= i < |xs| => f(xs[i]))
  }

  lemma MapSnoc<A, B>(f: A -> B, xs: seq<A>, x: A)
    ensures Map(f, xs + [x]) == Map(f, xs) + [f(x)]
  {
    var a, b := Map(f, xs + [x]), Map(f, xs) + [f(x)];
    forall k | 0 <= k < |a| ensures a[k] == b[k] {
      assert (xs + [x])[k] == if k < |xs| then xs[k] else x;
    }
  }

  lemma Regroup<T>(a: seq<T>, b: seq<T>, c: seq<T>, d: seq<T>, e: seq<T>)
    ensures a + (b + (c + d)) + e == (a + b + c) + (d + e)
  {
  }

  lemma PrefixOfConcat<T>(a: seq<T>, b: seq<T>)
    ensures (a + b)[..|a|] == a
  {
  }

  /** Text ending with suffix still does after something is put in front. */
  lemma EndsWithConcat(a: string, b: string, suffix: string)
    requires EndsWith(b, suffix)
    ensures EndsWith(a + b, suffix)
  {
    assert (a + b)[|a + b| - |suffix|..] == b[|b| - |suffix|..];
  }

  /** Putting a in front of text that starts with prefix gives text that
      starts with a + prefix. */
  lemma StartsWithPrepend(a: string, b: string, prefix: string)
    requires StartsWith(b, prefix)
    ensures StartsWith(a + b, a + prefix)
  {
    assert (a + b)[..|a + prefix|] == a + b[..|prefix|];
  }

  /** String.Join(sep, xs). */
  function Join(xs: seq<string>, sep: string): string {
    if |xs| == 0 then ""
    else if |xs| == 1 then xs[0]
    else xs[0] + sep + Join(xs[1..], sep)
  }

  lemma {:induction false} JoinConcat(xs: seq<string>, ys: seq<string>, sep: string)
    requires |xs| > 0 && |ys| > 0
    ensures Join(xs + ys, sep) == Join(xs, sep) + sep + Join(ys, sep)
  {
    if |xs| > 1 {
      assert (xs + ys)[1..] == xs[1..] + ys;
      JoinConcat(xs[1..], ys, sep);
    } else {
      assert (xs + ys)[1..] == ys;
    }
  }

  /** A character in neither the pieces nor the separator is not in the join. */
  lemma {:induction false} JoinAvoids(xs: seq<string>, sep: string, c: char)
    requires c !in sep
    requires forall i | 0 <= i < |xs| :: c !in xs[i]
    ensures c !in Join(xs, sep)
  {
    if |xs| > 1 {
      JoinAvoids(xs[1..], sep, c);
    }
  }

  lemma JoinSnoc(xs: seq<string>, x: string, sep: string)
    ensures Join(xs + [x], sep) == if |xs| == 0 then x else Join(xs, sep) + sep + x
  {
    if |xs| > 0 {
      JoinConcat(xs, [x], sep);
    }
  }

  lemma JoinPrepend(x: string, ys: seq<string>, c: char)
    ensures Join([[c] + x] + ys, [c]) == [c] + Join([x] + ys, [c])
  {
    if |ys| > 0 {
      assert ([[c] + x] + ys)[1..] == ys;
      assert ([x] + ys)[1..] == ys;
    }
  }

  lemma {:induction false} JoinSplit(s: string, c: char)
    ensures Join(Split(s, c), [c]) == s
    decreases |s|
  {
    if |s| > 0 {
      var rest := Split(s[1..], c);
      JoinSplit(s[1..], c);
      if s[0] == c {
        assert Join([""] + rest, [c]) == "" + [c] + Join(rest, [c]);
      } else {
        var r := [[s[0]] + rest[0]] + rest[1..];
        assert rest == [rest[0]] + rest[1..];
        if |rest| == 1 {
          assert r == [[s[0]] + rest[0]];
        } else {
          assert r[1..] == rest[1..];
          assert Join(r, [c]) == [s[0]] + rest[0] + [c] + Join(rest[1..], [c]);
        }
      }
      assert s == [s[0]] + s[1..];
    }
  }

  lemma {:induction false} SplitJoin(xs: seq<string>, c: char)
    requires |xs| > 0
    requires forall i | 0 <= i < |xs| :: c !in xs[i]
    ensures Split(Join(xs, [c]), c) == xs
    decreases |xs|, |xs[0]|
  {
    if |xs[0]| > 0 {
      var x := xs[0];
      var ys := [x[1..]] + xs[1..];
      assert x == [x[0]] + x[1..];
      assert xs == [[x[0]] + x[1..]] + xs[1..];
      JoinPrepend(x[1..], xs[1..], x[0]);
      assert ys[0] == x[1..];
      assert forall i | 0 <= i < |ys| :: c !in ys[i] by {
        forall i | 0 <= i < |ys| ensures c !in ys[i] {
          if i == 0 {
            assert x[1..] == x[1..];
            assert forall j | 0 <= j < |x[1..]| :: x[1..][j] == x[j + 1];
          } else {
            assert ys[i] == xs[i];
          }
        }
      }
      SplitJoin(ys, c);
      var s := Join(xs, [c]);
      assert s == [x[0]] + Join(ys, [c]) by {
        assert xs == [[x[0]] + x[1..]] + xs[1..];
        JoinPrepend(x[1..], xs[1..], x[0]);
      }
      assert s[1..] == Join(ys, [c]);
      assert s[0] != c;
      assert [ys[0]] + ys[1..] == ys;
    } else if |xs| == 1 {
    } else {
      var s := Join(xs, [c]);
      assert s == [c] + Join(xs[1..], [c]);
      assert s[1..] == Join(xs[1..], [c]);
      SplitJoin(xs[1..], c);
      assert xs == [""] + xs[1..];
    }
  }

  /** The characters char.IsWhiteSpace accepts. */
  predicate IsWhiteSpace(c: char) {
    var n := c as int;
    || (0x09 <= n <= 0x0D) || n == 0x20 || n == 0x85 || n == 0xA0 || n == 0x1680
    || (0x2000 <= n <= 0x200A) || n == 0x2028 || n == 0x2029 || n == 0x202F
    || n == 0x205F || n == 0x3000
  }

  /** The first position at or after `from` that is not white space, or |s|. */
  function SkipWhiteSpace(s: string, from: nat): (n: nat)
    requires from <= |s|
    ensures from <= n <= |s|
    ensures forall k | from <= k < n :: IsWhiteSpace(s[k])
    ensures n < |s| ==> !IsWhiteSpace(s[n])
    decreases |s| - from
  {
    if from < |s| && IsWhiteSpace(s[from]) then SkipWhiteSpace(s, from + 1) else from
  }

  /** The end of `s[lo..to]` with its trailing white space dropped. */
  function BackOverWhiteSpace(s: string, lo: nat, to: nat): (m: nat)
    requires lo <= to <= |s|
    ensures lo <= m <= to
    ensures forall k | m <= k < to :: IsWhiteSpace(s[k])
    ensures m > lo ==> !IsWhiteSpace(s[m - 1])
  {
    if to > lo && IsWhiteSpace(s[to - 1]) then BackOverWhiteSpace(s, lo, to - 1) else to
  }

  /** `r` is `s[i..j]`, and everything before `i` and from `j` on is white space. */
  predicate TrimmedSlice(s: string, i: int, j: int, r: string) {
    && 0 <= i <= j <= |s| && r == s[i..j]
    && (forall k | 0 <= k < i :: IsWhiteSpace(s[k]))
    && (forall k | j <= k < |s| :: IsWhiteSpace(s[k]))
  }

  /** String.Trim(): drops leading and trailing white space; the result is a
      contiguous slice of the input, everything cut off on either side is
      white space, and no white space is left at either end. */
  function Trim(s: string): (r: string)
    ensures exists i, j :: TrimmedSlice(s, i, j, r)
    ensures |r| > 0 ==> !IsWhiteSpace(r[0]) && !IsWhiteSpace(r[|r| - 1])
  {
    var i := SkipWhiteSpace(s, 0);
    var j := BackOverWhiteSpace(s, i, |s|);
    assert TrimmedSlice(s, i, j, s[i..j]);
    s[i..j]
  }

  lemma TrimIdempotent(s: string)
    ensures Trim(Trim(s)) == Trim(s)
  {
  }

  // ---- decimal text of a natural number ----

  function DigitChar(d: nat): (c: char)
    requires d < 10
    ensures '0' <= c <= '9'
  {
    ['0', '1', '2', '3', '4', '5', '6', '7', '8', '9'][d]
  }

  function DigitValue(c: char): nat {
    if '0' <= c <= '9' then (c as int - '0' as int) else 0
  }

  predicate IsDigits(s: string) {
    forall i | 0 <= i < |s| :: '0' <= s[i] <= '9'
  }

  /** The decimal text interpolation produces for a non-negative int. */
  function NatToString(n: nat): (r: string)
    ensures |r| > 0 && IsDigits(r)
  {
    if n < 10 then [DigitChar(n)] else NatToString(n / 10) + [DigitChar(n % 10)]
  }

  function ParseNat(s: string): nat {
    if |s| == 0 then 0 else 10 * ParseNat(s[..|s| - 1]) + DigitValue(s[|s| - 1])
  }

  lemma {:induction false} ParseNatToString(n: nat)
    ensures ParseNat(NatToString(n)) == n
  {
    var s := NatToString(n);
    if n < 10 {
      assert DigitValue(DigitChar(n)) == n;
      assert s[..0] == [];
    } else {
      ParseNatToString(n / 10);
      assert s[..|s| - 1] == NatToString(n / 10);
      assert DigitValue(DigitChar(n % 10)) == n % 10;
    }
  }

  /** Distinct numbers have distinct decimal texts. */
  lemma NatToStringInjective(m: nat, n: nat)
    requires m != n
    ensures NatToString(m) != NatToString(n)
  {
    ParseNatToString(m);
    ParseNatToString(n);
  }
}
