/**
 * The string operations the scripts rely on: ASCII digit runs and their integer values,
 * decimal rendering of integers (Python `str`/f-strings, polars `concat_str`), Python's
 * `str.split`, indexing with negative positions, and slicing.
 */
module Strings {
  import opened Wrappers

  predicate IsDigit(c: char)
  {
    '0' <= c <= '9'
  }

  predicate AllDigits(s: string)
  {
    forall i :: 0 <= i < |s| ==> IsDigit(s[i])
  }

  function DigitValue(c: char): (d: nat)
    requires IsDigit(c)
    ensures d < 10
  {
    (c as int) - ('0' as int)
  }

  function DigitChar(d: nat): (c: char)
    requires d < 10
    ensures IsDigit(c) && DigitValue(c) == d
  {
    (('0' as int) + d) as char
  }

  /** The value of a run of decimal digits, most significant first ("007" is 7). */
  function ParseNat(s: string): nat
    requires AllDigits(s)
  {
    if |s| == 0 then 0 else 10 * ParseNat(s[..|s| - 1]) + DigitValue(s[|s| - 1])
  }

  /** Decimal rendering of a natural number, as `str(n)` and `f"{n}"` produce it. */
  function NatToString(n: nat): (r: string)
    ensures |r| > 0 && AllDigits(r)
    ensures ParseNat(r) == n
    ensures |r| > 1 ==> r[0] != '0'
  {
    if n < 10 then [DigitChar(n)]
    else
      var r := NatToString(n / 10) + [DigitChar(n % 10)];
      assert r[..|r| - 1] == NatToString(n / 10);
      r
  }

  /** Different numbers are rendered as different strings. */
  lemma NatToStringInjective(a: nat, b: nat)
    requires NatToString(a) == NatToString(b)
    ensures a == b
  {
  }

  /** Length of the maximal run of digits that starts at position `i` (0 when there is none). */
  function DigitRun(s: string, i: nat): (n: nat)
    requires i <= |s|
    ensures i + n <= |s|
    ensures i + n < |s| ==> !IsDigit(s[i + n])
    decreases |s| - i
  {
    if i < |s| && IsDigit(s[i]) then 1 + DigitRun(s, i + 1) else 0
  }

  /** Every character of the run is a digit. */
  lemma {:induction false} DigitRunDigits(s: string, i: nat)
    requires i <= |s|
    ensures AllDigits(s[i..i + DigitRun(s, i)])
    decreases |s| - i
  {
    if i < |s| && IsDigit(s[i]) {
      DigitRunDigits(s, i + 1);
      assert s[i..i + DigitRun(s, i)] == [s[i]] + s[i + 1..i + 1 + DigitRun(s, i + 1)];
    }
  }

  /** A digit string placed at `i` and not followed by a digit is exactly the run found there. */
  lemma {:induction false} DigitRunOf(s: string, i: nat, d: string)
    requires i + |d| <= |s| && s[i..i + |d|] == d && AllDigits(d)
    requires i + |d| < |s| ==> !IsDigit(s[i + |d|])
    ensures DigitRun(s, i) == |d|
    decreases |d|
  {
    if |d| > 0 {
      assert s[i] == d[0];
      assert s[i + 1..i + 1 + |d[1..]|] == d[1..];
      DigitRunOf(s, i + 1, d[1..]);
    }
  }

  /** A digit string followed by a non-digit can be split off only one way. */
  lemma DigitRunPrefix(a: string, x: string, b: string, y: string)
    requires AllDigits(a) && AllDigits(b) && |x| > 0 && |y| > 0 && !IsDigit(x[0]) && !IsDigit(y[0])
    requires a + x == b + y
    ensures a == b && x == y
  {
    var s := a + x;
    assert s[0..|a|] == a && s[|a|] == x[0];
    DigitRunOf(s, 0, a);
    assert (b + y)[0..|b|] == b && (b + y)[|b|] == y[0];
    DigitRunOf(b + y, 0, b);
    assert a == s[..|a|] && x == s[|a|..];
    assert b == s[..|b|] && y == s[|b|..];
  }

  /** `t` occurs in `s` at position `p`. */
  predicate OccursAt(s: string, p: nat, t: string)
  {
    p + |t| <= |s| && s[p..p + |t|] == t
  }

  /** Python's `sep.join(fields)` for a one-character separator. */
  function Join(fields: seq<string>, sep: char): string
    requires |fields| >= 1
  {
    if |fields| == 1 then fields[0] else fields[0] + [sep] + Join(fields[1..], sep)
  }

  /**
   * Python's `s.split(sep)` for a one-character separator: always at least one field,
   * empty fields kept ("a_" gives ["a", ""], "" gives [""]).
   */
  function Split(s: string, sep: char): (fields: seq<string>)
    ensures |fields| >= 1
    ensures forall i :: 0 <= i < |fields| ==> sep !in fields[i]
    ensures Join(fields, sep) == s
  {
    if |s| == 0 then [""]
    else
      var rest := Split(s[1..], sep);
      if s[0] == sep then [""] + rest
      else
        var r := [[s[0]] + rest[0]] + rest[1..];
        assert r[1..] == rest[1..];
        r
  }

  /** A string without the separator is a single field. */
  lemma {:induction false} SplitNoSep(s: string, sep: char)
    requires sep !in s
    ensures Split(s, sep) == [s]
  {
    if |s| > 0 {
      assert sep !in s[1..] by { assert forall c :: c in s[1..] ==> c in s; }
      SplitNoSep(s[1..], sep);
    }
  }

  /** Splitting at one separator splits the two sides independently. */
  lemma {:induction false} SplitAt(a: string, sep: char, b: string)
    ensures Split(a + [sep] + b, sep) == Split(a, sep) + Split(b, sep)
  {
    var s := a + [sep] + b;
    if |a| == 0 {
      assert s[1..] == b;
    } else {
      assert s[1..] == a[1..] + [sep] + b;
      SplitAt(a[1..], sep, b);
    }
  }

  /** The last field of a split is everything after the last separator. */
  lemma SplitLast(a: string, sep: char, b: string)
    requires sep !in b
    ensures var f := Split(a + [sep] + b, sep); f[|f| - 1] == b
  {
    SplitAt(a, sep, b);
    SplitNoSep(b, sep);
  }

  /** A join starts with its first field and ends with its last, each cut off by a separator when there are more. */
  lemma {:induction false} JoinEnds(fields: seq<string>, sep: char)
    requires |fields| >= 1
    ensures var s, h, l := Join(fields, sep), fields[0], fields[|fields| - 1];
      && |h| <= |s| && s[..|h|] == h && (|fields| > 1 ==> |h| < |s| && s[|h|] == sep)
      && |l| <= |s| && s[|s| - |l|..] == l && (|fields| > 1 ==> |l| < |s| && s[|s| - |l| - 1] == sep)
  {
    if |fields| > 1 {
      var rest := fields[1..];
      JoinEnds(rest, sep);
      var s, t, l := Join(fields, sep), Join(rest, sep), fields[|fields| - 1];
      assert l == rest[|rest| - 1];
      assert s == fields[0] + [sep] + t;
      assert s[|s| - |t|..] == t;
      if |rest| > 1 {
        assert s[|s| - |l| - 1] == t[|t| - |l| - 1];
      }
    }
  }

  /** Splitting a joined list of separator-free fields gives the fields back. */
  lemma {:induction false} SplitJoin(fields: seq<string>, sep: char)
    requires |fields| >= 1
    requires forall i :: 0 <= i < |fields| ==> sep !in fields[i]
    ensures Split(Join(fields, sep), sep) == fields
  {
    SplitNoSep(fields[0], sep);
    if |fields| > 1 {
      SplitJoin(fields[1..], sep);
      SplitAt(fields[0], sep, Join(fields[1..], sep));
      assert [fields[0]] + fields[1..] == fields;
    }
  }

  /** Python's `xs[i]` with negative positions counted from the end; `None` is an IndexError. */
  function PyAt<T>(xs: seq<T>, i: int): (r: Option<T>)
    ensures r.Some? <==> -|xs| <= i < |xs|
    ensures 0 <= i < |xs| ==> r == Some(xs[i])
    ensures -|xs| <= i < 0 ==> r == Some(xs[|xs| + i])
  {
    if 0 <= i < |xs| then Some(xs[i])
    else if -|xs| <= i < 0 then Some(xs[|xs| + i])
    else None
  }

  /** Python's `s[:-k]`: all but the last `k` characters, and "" when `s` is shorter than `k`. */
  function DropLast(s: string, k: nat): (r: string)
    requires k > 0
    ensures |s| >= k ==> s == r + s[|s| - k..]
    ensures |s| < k ==> r == ""
  {
    if |s| >= k then s[..|s| - k] else ""
  }

  /** The position of the last `c` in `s`, if any. */
  function LastIndex(s: string, c: char): (r: Option<nat>)
    ensures r.Some? ==> r.value < |s| && s[r.value] == c
    ensures r.Some? ==> forall i :: r.value < i < |s| ==> s[i] != c
    ensures r.None? ==> forall i :: 0 <= i < |s| ==> s[i] != c
  {
    if |s| == 0 then None
    else if s[|s| - 1] == c then Some(|s| - 1)
    else
      var r := LastIndex(s[..|s| - 1], c);
      assert forall i :: 0 <= i < |s| - 1 ==> s[..|s| - 1][i] == s[i];
      r
  }
}
