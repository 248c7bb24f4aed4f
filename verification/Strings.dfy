/**
 * Python and JavaScript string operations the services rely on, over `seq<char>`.
 *
 * `Strip` is `str.strip()`: it removes the characters for which `str.isspace` holds. `ReplaceAll` is
 * `str.replace` with all leftmost, non-overlapping occurrences, and `Rewrites` counts them. `Joined` is
 * `sep.join(parts)`, `IndexOf` is `s.indexOf(p, from)`, and `Decimal` is `str(n)` of a non-negative integer.
 *
 * `OccursAt` and `Contains` say where one string stands in another; the lemmas relate them to slices, so
 * that a claim about a part of a text can be read as a claim about the text. `NumberedInjective` is what
 * ids of the form `name_number` rest on: the last underscore splits such an id.
 */
module Strings {

  /** `str.isspace` of one character: the characters `str.strip()` removes. */
  predicate IsSpace(c: char) {
    || '\t' <= c <= '\r'
    || '\U{1C}' <= c <= ' '
    || c == '\U{85}' || c == '\U{A0}' || c == '\U{1680}'
    || '\U{2000}' <= c <= '\U{200A}'
    || c == '\U{2028}' || c == '\U{2029}' || c == '\U{202F}' || c == '\U{205F}' || c == '\U{3000}'
  }

  /** The code points for which Python's `str.isspace` holds. */
  lemma SpaceCodes(c: char)
    ensures IsSpace(c) <==>
            c as int in {9, 10, 11, 12, 13, 28, 29, 30, 31, 32, 133, 160, 5760, 8192, 8193, 8194, 8195, 8196, 8197,
                         8198, 8199, 8200, 8201, 8202, 8232, 8233, 8239, 8287, 12288}
  {
  }

  predicate AllSpace(s: string) {
    forall i :: 0 <= i < |s| ==> IsSpace(s[i])
  }

  /** Number of leading whitespace characters: `len(s) - len(s.lstrip())`. */
  function Leading(s: string): (n: nat)
    ensures n <= |s|
  {
    if s != "" && IsSpace(s[0]) then 1 + Leading(s[1..]) else 0
  }

  /** Number of trailing whitespace characters. */
  function Trailing(s: string): (n: nat)
    ensures n <= |s|
  {
    if s != "" && IsSpace(s[|s| - 1]) then 1 + Trailing(s[..|s| - 1]) else 0
  }

  /** `s.strip()`. */
  function Strip(s: string): (r: string)
    ensures |r| <= |s|
  {
    var tail := s[Leading(s)..];
    tail[..|tail| - Trailing(tail)]
  }

  predicate Stripped(s: string) {
    s != "" ==> !IsSpace(s[0]) && !IsSpace(s[|s| - 1])
  }

  lemma {:induction false} LeadingIsSpace(s: string)
    ensures forall i :: 0 <= i < Leading(s) ==> IsSpace(s[i])
    ensures Leading(s) < |s| ==> !IsSpace(s[Leading(s)])
  {
    if s != "" && IsSpace(s[0]) {
      LeadingIsSpace(s[1..]);
      assert forall i :: 1 <= i < |s| ==> s[i] == s[1..][i - 1];
    }
  }

  lemma {:induction false} TrailingIsSpace(s: string)
    ensures forall i :: |s| - Trailing(s) <= i < |s| ==> IsSpace(s[i])
    ensures Trailing(s) < |s| ==> !IsSpace(s[|s| - Trailing(s) - 1])
  {
    if s != "" && IsSpace(s[|s| - 1]) {
      TrailingIsSpace(s[..|s| - 1]);
    }
  }

  /** Stripping keeps one slice of the string and drops nothing but whitespace. */
  lemma StripKeeps(s: string)
    ensures Leading(s) + |Strip(s)| <= |s|
    ensures s[Leading(s)..Leading(s) + |Strip(s)|] == Strip(s)
    ensures forall i :: 0 <= i < |s| && !IsSpace(s[i]) ==> Leading(s) <= i < Leading(s) + |Strip(s)|
    ensures Strip(s) == "" <==> AllSpace(s)
    ensures Stripped(Strip(s))
  {
    hide *;
    var n := Leading(s);
    var tail := s[n..];
    var k := |tail| - Trailing(tail);
    StripIs(s);
    LeadingIsSpace(s);
    TrailingIsSpace(tail);
    TailIsRange(s, n, k);
    StripKeepsRange(s, n, n + k);
  }

  lemma StripIs(s: string)
    ensures var tail := s[Leading(s)..]; Strip(s) == tail[..|tail| - Trailing(tail)]
  {
    hide Leading, Trailing;
  }

  /** What holds of the tail from `n` on, said of the string itself. */
  lemma TailIsRange(s: string, n: nat, k: nat)
    requires n <= |s| && k <= |s| - n
    requires forall i :: k <= i < |s| - n ==> IsSpace(s[n..][i])
    requires 0 < k ==> !IsSpace(s[n..][k - 1])
    requires n < |s| ==> !IsSpace(s[n])
    ensures s[n..][..k] == s[n..n + k]
    ensures forall i :: n + k <= i < |s| ==> IsSpace(s[i])
    ensures n < |s| ==> 0 < k && !IsSpace(s[n + k - 1])
  {
    hide IsSpace;
    assert forall i :: n <= i < |s| ==> s[i] == s[n..][i - n];
  }

  lemma StripKeepsRange(s: string, n: nat, m: nat)
    requires n <= m <= |s|
    requires forall i :: 0 <= i < n ==> IsSpace(s[i])
    requires forall i :: m <= i < |s| ==> IsSpace(s[i])
    requires n < |s| ==> !IsSpace(s[n]) && n < m && !IsSpace(s[m - 1])
    ensures s[n..m] == "" <==> AllSpace(s)
    ensures Stripped(s[n..m])
    ensures forall i :: 0 <= i < |s| && !IsSpace(s[i]) ==> n <= i < m
  {
    hide IsSpace;
  }

  lemma StripOfStripped(s: string)
    requires Stripped(s)
    ensures Strip(s) == s
  {
    assert Leading(s) == 0 && Trailing(s) == 0;
    assert s[0..] == s && s[..|s|] == s;
  }

  /** `p` stands in `s` at position `i`. */
  predicate OccursAt(s: string, p: string, i: int) {
    0 <= i <= |s| - |p| && s[i..i + |p|] == p
  }

  ghost predicate Contains(s: string, p: string) {
    exists i :: OccursAt(s, p, i)
  }

  lemma SliceOfSlice<T>(s: seq<T>, lo: nat, hi: nat, i: nat, j: nat)
    requires lo <= hi <= |s| && i <= j <= hi - lo
    ensures s[lo..hi][i..j] == s[lo + i..lo + j]
  {
    var mid := s[lo..hi];
    forall k | 0 <= k < j - i
      ensures mid[i..j][k] == s[lo + i..lo + j][k]
    {
      assert mid[i..j][k] == mid[i + k] == s[lo + i + k];
    }
  }

  /** A stripped slice stands in the string at its own place. */
  lemma StripStands(s: string, lo: nat, hi: nat)
    requires lo <= hi <= |s|
    ensures var raw := s[lo..hi]; var at := lo + Leading(raw);
            at + |Strip(raw)| <= hi && s[at..at + |Strip(raw)|] == Strip(raw) && Stripped(Strip(raw))
  {
    hide *;
    var raw := s[lo..hi];
    StripKeeps(raw);
    SliceOfSlice(s, lo, hi, Leading(raw), Leading(raw) + |Strip(raw)|);
  }

  lemma OccursInSlice(s: string, p: string, lo: nat, hi: nat, i: int)
    requires lo <= hi <= |s| && 0 <= i
    ensures OccursAt(s[lo..hi], p, i) <==> OccursAt(s, p, lo + i) && lo + i + |p| <= hi
  {
    if i + |p| <= hi - lo {
      SliceOfSlice(s, lo, hi, i, i + |p|);
    }
  }

  lemma ContainsInSlice(s: string, p: string, lo: nat, hi: nat)
    requires lo <= hi <= |s|
    requires Contains(s[lo..hi], p)
    ensures Contains(s, p)
  {
    var i :| OccursAt(s[lo..hi], p, i);
    OccursInSlice(s, p, lo, hi, i);
  }

  /** `s.replace(p, v)`: every leftmost, non-overlapping occurrence of `p`. */
  function ReplaceAll(s: string, p: string, v: string): string
    requires p != ""
    decreases |s|
  {
    if |s| < |p| then s
    else if p <= s then v + ReplaceAll(s[|p|..], p, v)
    else [s[0]] + ReplaceAll(s[1..], p, v)
  }

  /** How many occurrences `ReplaceAll` rewrites. */
  ghost function Rewrites(s: string, p: string): nat
    requires p != ""
    decreases |s|
  {
    if |s| < |p| then 0
    else if p <= s then 1 + Rewrites(s[|p|..], p)
    else Rewrites(s[1..], p)
  }

  lemma {:induction false} ReplaceNothing(s: string, p: string, v: string)
    requires p != "" && !Contains(s, p)
    ensures ReplaceAll(s, p, v) == s && Rewrites(s, p) == 0
    decreases |s|
  {
    if |s| >= |p| {
      assert !OccursAt(s, p, 0);
      assert s[1..|s|] == s[1..];
      if Contains(s[1..|s|], p) {
        ContainsInSlice(s, p, 1, |s|);
      }
      ReplaceNothing(s[1..], p, v);
    }
  }

  /** A prefix in which no occurrence starts is copied unchanged. */
  lemma {:induction false} ReplaceSkips(a: string, s: string, p: string, v: string)
    requires p != ""
    requires forall i :: 0 <= i < |a| ==> !OccursAt(a + s, p, i)
    ensures ReplaceAll(a + s, p, v) == a + ReplaceAll(s, p, v)
    ensures Rewrites(a + s, p) == Rewrites(s, p)
    decreases |a|
  {
    hide *;
    if a == "" {
      assert a + s == s && a + ReplaceAll(s, p, v) == ReplaceAll(s, p, v);
    } else {
      SkipsTail(a, s, p);
      assert (a + s)[1..] == a[1..] + s && (a + s)[0] == a[0];
      ReplaceFirst(a + s, p, v);
      ReplaceSkips(a[1..], s, p, v);
      assert [a[0]] + (a[1..] + ReplaceAll(s, p, v)) == a + ReplaceAll(s, p, v);
    }
  }

  /** A character at which nothing is replaced is copied. */
  lemma ReplaceFirst(s: string, p: string, v: string)
    requires s != "" && p != "" && !OccursAt(s, p, 0)
    ensures ReplaceAll(s, p, v) == [s[0]] + ReplaceAll(s[1..], p, v) && Rewrites(s, p) == Rewrites(s[1..], p)
  {
    if |s| < |p| {
      assert s == [s[0]] + s[1..];
      assert ReplaceAll(s[1..], p, v) == s[1..];
    } else {
      assert s[0..|p|] == s[..|p|];
    }
  }

  lemma SkipsTail(a: string, s: string, p: string)
    requires a != "" && forall i :: 0 <= i < |a| ==> !OccursAt(a + s, p, i)
    ensures !OccursAt(a + s, p, 0) && forall i :: 0 <= i < |a| - 1 ==> !OccursAt(a[1..] + s, p, i)
  {
    forall i | 0 <= i < |a| - 1
      ensures !OccursAt(a[1..] + s, p, i)
    {
      assert (a + s)[1..|a + s|] == a[1..] + s;
      OccursInSlice(a + s, p, 1, |a + s|, i);
      assert !OccursAt(a + s, p, i + 1);
    }
  }

  lemma ReplaceHead(s: string, p: string, v: string)
    requires p != ""
    ensures ReplaceAll(p + s, p, v) == v + ReplaceAll(s, p, v)
    ensures Rewrites(p + s, p) == 1 + Rewrites(s, p)
  {
    assert (p + s)[|p|..] == s;
  }

  /** `sep.join(parts)`. */
  function Joined(parts: seq<string>, sep: string): string {
    if parts == [] then ""
    else if |parts| == 1 then parts[0]
    else parts[0] + sep + Joined(parts[1..], sep)
  }

  /** First position at or after `from` where `p` occurs, or -1: `s.indexOf(p, from)`. */
  function IndexOf(s: string, p: string, from: nat): (r: int)
    ensures r == -1 || (from <= r && OccursAt(s, p, r))
    ensures forall i :: from <= i && OccursAt(s, p, i) ==> 0 <= r <= i
    decreases |s| - from
  {
    if from + |p| > |s| then -1
    else if s[from..from + |p|] == p then from
    else IndexOf(s, p, from + 1)
  }

  predicate IsDigit(c: char) { '0' <= c <= '9' }

  predicate AllDigits(s: string) {
    forall i :: 0 <= i < |s| ==> IsDigit(s[i])
  }

  function DigitValue(c: char): (d: nat)
    requires IsDigit(c)
    ensures d < 10
  {
    c as int - '0' as int
  }

  function DigitChar(d: nat): (c: char)
    requires d < 10
    ensures IsDigit(c) && c as int - '0' as int == d
  {
    '0' + d as char
  }

  /** `str(n)` for a non-negative integer. */
  function Decimal(n: nat): (s: string)
    ensures s != "" && forall i :: 0 <= i < |s| ==> IsDigit(s[i])
  {
    if n < 10 then [DigitChar(n)] else Decimal(n / 10) + [DigitChar(n % 10)]
  }

  /** What digits read as: ten times what stands in front of the last one, plus that one. */
  function Numeral(s: string): nat
    requires AllDigits(s)
  {
    if s == "" then 0 else 10 * Numeral(s[..|s| - 1]) + DigitValue(s[|s| - 1])
  }

  /** `s` is the decimal numeral of `n`: digits that read as `n`, without a leading zero. */
  predicate ReadsAs(s: string, n: nat) {
    s != "" && AllDigits(s) && (|s| > 1 ==> s[0] != '0') && Numeral(s) == n
  }

  lemma {:induction false} DecimalReads(n: nat)
    ensures ReadsAs(Decimal(n), n)
    ensures n > 0 ==> Decimal(n)[0] != '0'
  {
    if n >= 10 {
      DecimalReads(n / 10);
      var s := Decimal(n);
      assert s[..|s| - 1] == Decimal(n / 10) && s[0] == Decimal(n / 10)[0];
    }
  }

  /** A number has no other numeral. */
  lemma {:induction false} NumeralIsDecimal(s: string, n: nat)
    requires ReadsAs(s, n)
    ensures s == Decimal(n)
    decreases |s|
  {
    var init, last := s[..|s| - 1], s[|s| - 1];
    if |s| > 1 {
      LeadingDigitCounts(init);
      NumeralIsDecimal(init, Numeral(init));
      assert n / 10 == Numeral(init) && n % 10 == DigitValue(last);
    }
    assert s == init + [last];
  }

  lemma {:induction false} LeadingDigitCounts(s: string)
    requires s != "" && AllDigits(s) && s[0] != '0'
    ensures Numeral(s) > 0
  {
    if |s| > 1 {
      LeadingDigitCounts(s[..|s| - 1]);
    }
  }

  lemma {:induction false} DecimalInjective(m: nat, n: nat)
    requires Decimal(m) == Decimal(n)
    ensures m == n
    decreases m
  {
    var s := Decimal(m);
    assert m % 10 == s[|s| - 1] as int - '0' as int == n % 10;
    assert (m < 10 <==> |s| == 1) && (n < 10 <==> |s| == 1);
    if m >= 10 {
      assert s[..|s| - 1] == Decimal(m / 10) == Decimal(n / 10);
      DecimalInjective(m / 10, n / 10);
    }
  }

  lemma LastUnderscore(a: string, m: nat)
    ensures var s := a + "_" + Decimal(m);
            s[|a|] == '_' && forall i :: |a| < i < |s| ==> s[i] != '_'
  {
    var s := a + "_" + Decimal(m);
    forall i | |a| < i < |s|
      ensures s[i] != '_'
    {
      assert s[i] == Decimal(m)[i - |a| - 1];
    }
  }

  /** A text followed by an underscore and a number names both: the last underscore splits them. */
  lemma {:induction false} NumberedInjective(a: string, m: nat, b: string, n: nat)
    requires a + "_" + Decimal(m) == b + "_" + Decimal(n)
    ensures a == b && m == n
  {
    var s := a + "_" + Decimal(m);
    var t := b + "_" + Decimal(n);
    LastUnderscore(a, m);
    LastUnderscore(b, n);
    assert a == s[..|a|] == t[..|b|] == b;
    assert Decimal(m) == s[|a| + 1..] == t[|b| + 1..] == Decimal(n);
    DecimalInjective(m, n);
  }
}
