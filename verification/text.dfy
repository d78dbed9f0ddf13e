/** The string operations the renderer builds its identity key and source filter
    from: JavaScript's template formatting of integers, the default `Array.sort`
    order on strings, `Array.join`, and `String.indexOf`. */
module Text {

  /** The character of a decimal digit: '0' is code point 48. */
  function DigitChar(d: nat): (c: char)
    requires d < 10
    ensures '0' <= c <= '9'
  {
    (48 + d) as char
  }

  predicate IsDigit(c: char) { '0' <= c <= '9' }

  /** Decimal digits of a natural number, without leading zeros: one digit
      exactly when the number is below 10. */
  function NatToString(n: nat): (s: string)
    ensures |s| > 0 && (|s| == 1 <==> n < 10)
    ensures forall k :: 0 <= k < |s| ==> IsDigit(s[k])
  {
    if n < 10 then [DigitChar(n)] else NatToString(n / 10) + [DigitChar(n % 10)]
  }

  /** Different natural numbers print differently. */
  lemma {:induction false} NatToStringInjective(m: nat, n: nat)
    requires NatToString(m) == NatToString(n)
    ensures m == n
  {
    var s := NatToString(m);
    if m >= 10 {
      assert s[..|s| - 1] == NatToString(m / 10) == NatToString(n / 10);
      NatToStringInjective(m / 10, n / 10);
      assert DigitChar(m % 10) == s[|s| - 1] == DigitChar(n % 10);
    } else {
      assert DigitChar(m) == s[0] == DigitChar(n);
    }
  }

  /** Decimal rendering of an integer, as `${n}` gives for integral numbers
      below 1e21. */
  function IntToString(n: int): (s: string)
    ensures |s| > 0 && (s[0] == '-' <==> n < 0)
    ensures forall k :: 1 <= k < |s| ==> IsDigit(s[k])
  {
    if n < 0 then "-" + NatToString(-n) else NatToString(n)
  }

  /** Different integers print differently. */
  lemma IntToStringInjective(m: int, n: int)
    requires IntToString(m) == IntToString(n)
    ensures m == n
  {
    if m < 0 {
      assert NatToString(-m) == IntToString(m)[1..] == IntToString(n)[1..] == NatToString(-n);
      NatToStringInjective(-m, -n);
    } else {
      NatToStringInjective(m, n);
    }
  }

  /** Lexicographic order on code points: the comparison `Array.prototype.sort`
      applies to strings when no comparator is given. */
  predicate LexLe(a: string, b: string)
    decreases |a|
  {
    |a| == 0 || (|b| != 0 && (a[0] < b[0] || (a[0] == b[0] && LexLe(a[1..], b[1..]))))
  }

  lemma {:induction false} LexLeReflexive(a: string)
    ensures LexLe(a, a)
    decreases |a|
  {
    if |a| != 0 {
      LexLeReflexive(a[1..]);
    }
  }

  lemma {:induction false} LexLeTotal(a: string, b: string)
    ensures LexLe(a, b) || LexLe(b, a)
    decreases |a|
  {
    if |a| != 0 && |b| != 0 && a[0] == b[0] {
      LexLeTotal(a[1..], b[1..]);
    }
  }

  lemma {:induction false} LexLeAntisymmetric(a: string, b: string)
    requires LexLe(a, b) && LexLe(b, a)
    ensures a == b
    decreases |a|
  {
    if |a| != 0 {
      assert a[0] == b[0];
      LexLeAntisymmetric(a[1..], b[1..]);
      assert a == [a[0]] + a[1..];
      assert b == [b[0]] + b[1..];
    }
  }

  lemma {:induction false} LexLeTransitive(a: string, b: string, c: string)
    requires LexLe(a, b) && LexLe(b, c)
    ensures LexLe(a, c)
    decreases |a|
  {
    if |a| != 0 && a[0] == b[0] && b[0] == c[0] {
      LexLeTransitive(a[1..], b[1..], c[1..]);
    }
  }

  ghost predicate Sorted(s: seq<string>)
  {
    forall i, j :: 0 <= i < j < |s| ==> LexLe(s[i], s[j])
  }

  /** Inserts `x` before the first element it does not exceed. */
  function Insert(x: string, s: seq<string>): seq<string>
  {
    if |s| == 0 then [x]
    else if LexLe(x, s[0]) then [x] + s
    else [s[0]] + Insert(x, s[1..])
  }

  lemma {:induction false} InsertSorted(x: string, s: seq<string>)
    requires Sorted(s)
    ensures Sorted(Insert(x, s))
    ensures multiset(Insert(x, s)) == multiset(s) + multiset{x}
    decreases |s|
  {
    if |s| == 0 {
    } else if LexLe(x, s[0]) {
      forall j | 0 < j < |s|
        ensures LexLe(x, s[j])
      {
        LexLeTransitive(x, s[0], s[j]);
      }
      assert s == [s[0]] + s[1..];
    } else {
      LexLeTotal(x, s[0]);
      var rest := Insert(x, s[1..]);
      InsertSorted(x, s[1..]);
      assert s == [s[0]] + s[1..];
      HeadBelowAll(s, x, rest);
    }
  }

  /** `s[0]` is below everything in a sequence holding `x` and the rest of `s`. */
  lemma HeadBelowAll(s: seq<string>, x: string, rest: seq<string>)
    requires Sorted(s) && |s| > 0 && LexLe(s[0], x)
    requires multiset(rest) == multiset(s[1..]) + multiset{x}
    ensures forall k :: 0 <= k < |rest| ==> LexLe(s[0], rest[k])
  {
    forall k | 0 <= k < |rest|
      ensures LexLe(s[0], rest[k])
    {
      assert rest[k] in multiset(rest);
      if rest[k] != x {
        assert rest[k] in multiset(s[1..]);
        var j :| 0 <= j < |s[1..]| && s[1..][j] == rest[k];
        assert s[j + 1] == rest[k];
      }
    }
  }

  /** Insertion sort: the one sorted arrangement of the input. */
  function Sort(s: seq<string>): (r: seq<string>)
    ensures Sorted(r)
    ensures multiset(r) == multiset(s)
  {
    if |s| == 0 then []
    else
      var tail := Sort(s[1..]);
      InsertSorted(s[0], tail);
      assert s == [s[0]] + s[1..];
      Insert(s[0], tail)
  }

  /** The first element of a sorted sequence is below every element. */
  lemma HeadIsLeast(a: seq<string>, y: string)
    requires Sorted(a) && y in a
    ensures LexLe(a[0], y)
  {
    var i :| 0 <= i < |a| && a[i] == y;
    if i == 0 {
      LexLeReflexive(y);
    }
  }

  lemma SameHead(a: seq<string>, b: seq<string>)
    requires Sorted(a) && Sorted(b) && |a| > 0
    requires multiset(a) == multiset(b)
    ensures |b| > 0 && a[0] == b[0]
  {
    assert a[0] in multiset(a);
    assert a[0] in b;
    assert |b| == |multiset(b)| == |a|;
    assert b[0] in multiset(b);
    assert b[0] in a;
    HeadIsLeast(a, b[0]);
    HeadIsLeast(b, a[0]);
    LexLeAntisymmetric(a[0], b[0]);
  }

  /** Two sorted sequences holding the same strings are identical. */
  lemma {:induction false} SortedUnique(a: seq<string>, b: seq<string>)
    requires Sorted(a) && Sorted(b)
    requires multiset(a) == multiset(b)
    ensures a == b
    decreases |a|
  {
    if |a| == 0 {
      assert |b| == |multiset(b)| == 0;
    } else {
      SameHead(a, b);
      assert a == [a[0]] + a[1..];
      assert b == [b[0]] + b[1..];
      calc {
        multiset(a[1..]);
        multiset(a) - multiset{a[0]};
        multiset(b) - multiset{b[0]};
        multiset(b[1..]);
      }
      SortedUnique(a[1..], b[1..]);
    }
  }

  /** Sorting forgets the order of its input. */
  lemma SortReorderInvariant(a: seq<string>, b: seq<string>)
    requires multiset(a) == multiset(b)
    ensures Sort(a) == Sort(b)
  {
    SortedUnique(Sort(a), Sort(b));
  }

  /** `Array.prototype.join(sep)` */
  function Join(ss: seq<string>, sep: string): string
  {
    if |ss| == 0 then ""
    else if |ss| == 1 then ss[0]
    else ss[0] + sep + Join(ss[1..], sep)
  }

  /** Strings with no space in them, joined with a space, can be split back:
      equal joins of equally many such strings come from equal lists. */
  lemma {:induction false} JoinSpaceInjective(xs: seq<string>, ys: seq<string>)
    requires |xs| == |ys|
    requires forall k :: 0 <= k < |xs| ==> ' ' !in xs[k]
    requires forall k :: 0 <= k < |ys| ==> ' ' !in ys[k]
    requires Join(xs, " ") == Join(ys, " ")
    ensures xs == ys
  {
    if |xs| > 1 {
      SplitAtSpace(xs[0], Join(xs[1..], " "), ys[0], Join(ys[1..], " "));
      JoinSpaceInjective(xs[1..], ys[1..]);
      assert xs == [xs[0]] + xs[1..] && ys == [ys[0]] + ys[1..];
    }
  }

  /** The first space of `a + " " + b` is right after `a` when `a` has none. */
  lemma SplitAtSpace(a: string, b: string, c: string, d: string)
    requires ' ' !in a && ' ' !in c
    requires a + " " + b == c + " " + d
    ensures a == c && b == d
  {
    var s := a + " " + b;
    if |a| < |c| {
      SpaceAfter(a, b);
    } else if |c| < |a| {
      SpaceAfter(c, d);
    } else {
      assert a == s[..|a|] == c;
      assert b == s[|a| + 1..] == d;
    }
  }

  /** A join of space-free strings followed by a space splits back at the
      same place as another join of equally many: the two lists and the two
      tails agree. */
  lemma {:induction false} JoinPrefix(f: seq<string>, g: seq<string>, r1: string, r2: string)
    requires |f| == |g| >= 1
    requires forall k :: 0 <= k < |f| ==> ' ' !in f[k]
    requires forall k :: 0 <= k < |g| ==> ' ' !in g[k]
    requires Join(f, " ") + " " + r1 == Join(g, " ") + " " + r2
    ensures f == g && r1 == r2
  {
    if |f| == 1 {
      SplitAtSpace(f[0], r1, g[0], r2);
      assert f == [f[0]] && g == [g[0]];
    } else {
      var jf, jg := Join(f[1..], " "), Join(g[1..], " ");
      assert Join(f, " ") + " " + r1 == f[0] + " " + (jf + " " + r1);
      assert Join(g, " ") + " " + r2 == g[0] + " " + (jg + " " + r2);
      SplitAtSpace(f[0], jf + " " + r1, g[0], jg + " " + r2);
      JoinPrefix(f[1..], g[1..], r1, r2);
      assert f == [f[0]] + f[1..] && g == [g[0]] + g[1..];
    }
  }

  /** A join of space-free strings never equals a join of equally many of
      them followed by a space and more. */
  lemma {:induction false} JoinNotPrefix(f: seq<string>, g: seq<string>, r: string)
    requires |f| == |g| >= 1
    requires forall k :: 0 <= k < |f| ==> ' ' !in f[k]
    requires forall k :: 0 <= k < |g| ==> ' ' !in g[k]
    ensures Join(f, " ") != Join(g, " ") + " " + r
  {
    if |f| == 1 {
      SpaceAfter(g[0], r);
    } else if Join(f, " ") == Join(g, " ") + " " + r {
      var jf, jg := Join(f[1..], " "), Join(g[1..], " ");
      assert f[0] + " " + jf == g[0] + " " + (jg + " " + r);
      SplitAtSpace(f[0], jf, g[0], jg + " " + r);
      JoinNotPrefix(f[1..], g[1..], r);
    }
  }

  /** `s` is `n` space-free words joined with a space. */
  ghost predicate Words(s: string, n: nat)
  {
    exists f: seq<string> :: |f| == n && (forall k :: 0 <= k < n ==> ' ' !in f[k]) && s == Join(f, " ")
  }

  /** Non-empty strings of `n` words each, joined with a space, split back
      into the same list. */
  lemma {:induction false} JoinWordsInjective(xs: seq<string>, ys: seq<string>, n: nat)
    requires n >= 1
    requires forall m :: 0 <= m < |xs| ==> |xs[m]| > 0 && Words(xs[m], n)
    requires forall m :: 0 <= m < |ys| ==> |ys[m]| > 0 && Words(ys[m], n)
    requires Join(xs, " ") == Join(ys, " ")
    ensures xs == ys
  {
    if |xs| == 0 || |ys| == 0 {
      if |xs| > 0 {
        JoinNotEmpty(xs);
      } else if |ys| > 0 {
        JoinNotEmpty(ys);
      }
    } else {
      var fx: seq<string> :| |fx| == n && (forall k :: 0 <= k < n ==> ' ' !in fx[k]) && xs[0] == Join(fx, " ");
      var fy: seq<string> :| |fy| == n && (forall k :: 0 <= k < n ==> ' ' !in fy[k]) && ys[0] == Join(fy, " ");
      if |xs| == 1 && |ys| == 1 {
        assert xs == [xs[0]] && ys == [ys[0]];
      } else if |xs| == 1 {
        assert Join(ys, " ") == Join(fy, " ") + " " + Join(ys[1..], " ");
        JoinNotPrefix(fx, fy, Join(ys[1..], " "));
      } else if |ys| == 1 {
        assert Join(xs, " ") == Join(fx, " ") + " " + Join(xs[1..], " ");
        JoinNotPrefix(fy, fx, Join(xs[1..], " "));
      } else {
        JoinPrefix(fx, fy, Join(xs[1..], " "), Join(ys[1..], " "));
        JoinWordsInjective(xs[1..], ys[1..], n);
        assert xs == [xs[0]] + xs[1..] && ys == [ys[0]] + ys[1..];
      }
    }
  }

  lemma JoinNotEmpty(xs: seq<string>)
    requires |xs| > 0 && |xs[0]| > 0
    ensures |Join(xs, " ")| > 0
  {
  }

  lemma SpaceAfter(a: string, b: string)
    ensures (a + " " + b)[|a|] == ' '
  {
  }

  predicate OccursAt(hay: string, needle: string, k: int)
  {
    0 <= k && k + |needle| <= |hay| && hay[k..k + |needle|] == needle
  }

  /** The search of `hay.indexOf(needle)` continued from position `from`: the
      first position at or after `from` where `needle` occurs, or -1. Only
      `IndexOf` calls it, starting at 0, so the clamping JavaScript applies to a
      start beyond the end of `hay` never comes into play. */
  function IndexOfFrom(hay: string, needle: string, from: nat): (r: int)
    ensures r == -1 || (from <= r && OccursAt(hay, needle, r))
    ensures r != -1 ==> forall k :: from <= k < r ==> !OccursAt(hay, needle, k)
    ensures r == -1 <==> forall k :: from <= k ==> !OccursAt(hay, needle, k)
    decreases |hay| - from
  {
    if from + |needle| > |hay| then -1
    else if hay[from..from + |needle|] == needle then from
    else IndexOfFrom(hay, needle, from + 1)
  }

  function IndexOf(hay: string, needle: string): int
  {
    IndexOfFrom(hay, needle, 0)
  }
}
