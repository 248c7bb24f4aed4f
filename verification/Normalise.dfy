/** Tidying the text a PDF page yields, and the canonical form it reaches. */
module Normalise {
  import opened Strings
  import opened Wrappers

  // `Normalised` drops NULs, turns each run of blanks into one space, strips every line, turns three or more
  // newlines into two, and strips the whole. A text is canonical when it has no NUL, no break but the newline,
  // no blank but single spaces, stripped lines, no third newline in a row, and no whitespace at its ends. The
  // results are exactly the canonical texts, so normalising twice is normalising once; and the characters that
  // are neither whitespace nor NUL, the ink of the page, all stay in order.

  const NUL := '\0'

  /** The character class of `_WHITESPACE`. */
  predicate IsBlank(c: char) {
    c == ' ' || c == '\t' || c == '\r' || c == '\U{0C}' || c == '\U{0B}'
  }

  /** Where `str.splitlines` breaks a string in which no blank but ' ' is left. */
  predicate IsBreak(c: char) {
    c == '\n' || '\U{1C}' <= c <= '\U{1E}' || c == '\U{85}' || c == '\U{2028}' || c == '\U{2029}'
  }

  /** The code points of both classes; `IsBreak` leaves out the blanks at which `str.splitlines` would break too. */
  lemma BlankAndBreakCodes(c: char)
    ensures IsBlank(c) <==> c as int in {9, 11, 12, 13, 32}
    ensures IsBreak(c) <==> c as int in {10, 28, 29, 30, 133, 8232, 8233}
  {
  }

  // ---- The five steps ----

  /** `raw.replace("\x00", "")`. */
  function WithoutNul(s: string): string {
    if s == "" then "" else (if s[0] == NUL then "" else [s[0]]) + WithoutNul(s[1..])
  }

  /** `_WHITESPACE.sub(" ", s)`: the last blank of each run leaves the space. */
  function SqueezeBlanks(s: string): string {
    if s == "" then ""
    else if !IsBlank(s[0]) then [s[0]] + SqueezeBlanks(s[1..])
    else if |s| > 1 && IsBlank(s[1]) then SqueezeBlanks(s[1..])
    else " " + SqueezeBlanks(s[1..])
  }

  /** Length of the first line. */
  function LineEnd(s: string): (n: nat)
    ensures n <= |s| && (n < |s| ==> IsBreak(s[n]))
    ensures forall i :: 0 <= i < n ==> !IsBreak(s[i])
  {
    if s == "" || IsBreak(s[0]) then 0 else 1 + LineEnd(s[1..])
  }

  /** `s.splitlines()`: a break at the very end opens no further line. */
  function SplitLines(s: string): seq<string>
    decreases |s|
  {
    if s == "" then []
    else
      var n := LineEnd(s);
      [s[..n]] + if n == |s| then [] else SplitLines(s[n + 1..])
  }

  function StripAll(lines: seq<string>): (r: seq<string>)
    ensures |r| == |lines|
  {
    seq(|lines|, i requires 0 <= i < |lines| => Strip(lines[i]))
  }

  /** `"\n".join(line.strip() for line in s.splitlines())`. */
  function Relined(s: string): string {
    Joined(StripAll(SplitLines(s)), "\n")
  }

  predicate Triple(s: string, i: int) {
    0 <= i <= |s| - 3 && s[i] == s[i + 1] == s[i + 2] == '\n'
  }

  /** `_BLANK_LINES.sub("\n\n", s)`. */
  function SqueezeNewlines(s: string): string {
    if s == "" then ""
    else if Triple(s, 0) then SqueezeNewlines(s[1..])
    else [s[0]] + SqueezeNewlines(s[1..])
  }

  function Normalised(raw: string): string {
    Strip(SqueezeNewlines(Relined(SqueezeBlanks(WithoutNul(raw)))))
  }

  // ---- The canonical form ----

  predicate Allowed(c: char) {
    c != NUL && (IsBlank(c) ==> c == ' ') && (IsBreak(c) ==> c == '\n')
  }

  /** Two neighbours: no double space, and no whitespace beside a newline. */
  predicate Beside(a: char, b: char) {
    && !(a == ' ' && b == ' ')
    && (a == '\n' && IsSpace(b) ==> b == '\n')
    && (b == '\n' && IsSpace(a) ==> a == '\n')
  }

  predicate Tidy(s: string) {
    && (forall i :: 0 <= i < |s| ==> Allowed(s[i]))
    && forall i :: 0 <= i < |s| - 1 ==> Beside(s[i], s[i + 1])
  }

  /** Every line is stripped, blanks stand alone, at most one blank line separates
    * paragraphs, and neither end is whitespace. */
  predicate Canonical(s: string) {
    Tidy(s) && Stripped(s) && forall i :: 0 <= i < |s| ==> !Triple(s, i)
  }

  // ---- Reaching it ----

  /** What the form means in characters. */
  lemma CanonicalMeans(s: string, i: nat)
    requires Canonical(s) && i < |s|
    ensures s[i] !in {'\0', '\t', '\r', '\U{0B}', '\U{0C}'}
    ensures i + 1 < |s| ==> !(s[i] == ' ' && s[i + 1] == ' ')
    ensures i + 2 < |s| ==> !(s[i] == '\n' && s[i + 1] == '\n' && s[i + 2] == '\n')
    ensures i + 1 < |s| && s[i] == '\n' ==> s[i + 1] == '\n' || !IsSpace(s[i + 1])
    ensures i + 1 < |s| && s[i + 1] == '\n' ==> s[i] == '\n' || !IsSpace(s[i])
    ensures !IsSpace(s[0]) && !IsSpace(s[|s| - 1])
  {
    assert Allowed(s[i]) && !Triple(s, i);
    assert i + 1 < |s| ==> Beside(s[i], s[i + 1]);
  }

  lemma {:induction false} WithoutNulHasNone(s: string)
    ensures NUL !in WithoutNul(s)
  {
    if s != "" { WithoutNulHasNone(s[1..]); }
  }

  /** What holds of the text between the second step and the third. */
  predicate Squeezed(s: string) {
    && (forall i :: 0 <= i < |s| ==> s[i] != NUL && (IsBlank(s[i]) ==> s[i] == ' '))
    && forall i :: 0 <= i < |s| - 1 ==> !(s[i] == ' ' && s[i + 1] == ' ')
  }

  lemma {:induction false} SqueezeBlanksSqueezes(s: string)
    requires NUL !in s
    ensures Squeezed(SqueezeBlanks(s))
    ensures s != "" ==> SqueezeBlanks(s) != "" && (SqueezeBlanks(s)[0] == ' ' <==> IsBlank(s[0]))
  {
    if s != "" { SqueezeBlanksSqueezes(s[1..]); }
  }

  lemma SplitUnfold(s: string)
    ensures SplitLines("") == []
    ensures s != "" ==>
      SplitLines(s) == [s[..LineEnd(s)]] + if LineEnd(s) == |s| then [] else SplitLines(s[LineEnd(s) + 1..])
  {
    hide LineEnd, IsBreak;
  }

  lemma SplitStep(s: string)
    requires s != ""
    ensures var n := LineEnd(s);
            SplitLines(s) == if n >= |s| - 1 then [s[..n]] else [s[..n]] + SplitLines(s[n + 1..])
    ensures SplitLines(s) != []
  {
    hide *;
    SplitUnfold(s);
    if LineEnd(s) == |s| - 1 {
      assert s[|s|..] == "";
    }
  }

  lemma JoinStripped(line: string, more: seq<string>)
    ensures Joined(StripAll([line] + more), "\n") ==
      if more == [] then Strip(line) else Strip(line) + "\n" + Joined(StripAll(more), "\n")
  {
    hide Strip;
    assert StripAll([line] + more) == [Strip(line)] + StripAll(more);
  }

  lemma RelinedStep(s: string)
    requires s != ""
    ensures var n := LineEnd(s);
            Relined(s) == if n >= |s| - 1 then Strip(s[..n]) else Strip(s[..n]) + "\n" + Relined(s[n + 1..])
  {
    hide *;
    var n := LineEnd(s);
    SplitStep(s);
    RelinedIs(s);
    if n >= |s| - 1 {
      JoinStripped(s[..n], []);
      assert [s[..n]] + [] == [s[..n]];
    } else {
      SplitStep(s[n + 1..]);
      RelinedIs(s[n + 1..]);
      JoinStripped(s[..n], SplitLines(s[n + 1..]));
    }
  }

  lemma RelinedIs(s: string)
    ensures Relined(s) == Joined(StripAll(SplitLines(s)), "\n")
  {
  }

  /** The ends of a stripped line, or the newline of an empty one. */
  predicate Edge(c: char) {
    IsSpace(c) ==> c == '\n'
  }

  lemma {:induction false} RelinedIsTidy(s: string)
    requires Squeezed(s)
    ensures var r := Relined(s); Tidy(r) && (r != "" ==> Edge(r[0]))
    decreases |s|
  {
    if s != "" {
      var n := LineEnd(s);
      RelinedStep(s);
      LineIsTidy(s, n);
      var line := Strip(s[..n]);
      if n < |s| - 1 {
        var rest := s[n + 1..];
        RelinedIsTidy(rest);
        JoinIsTidy(line, Relined(rest));
      }
    }
  }

  lemma LineIsTidy(s: string, n: nat)
    requires Squeezed(s) && n == LineEnd(s)
    ensures Tidy(Strip(s[..n])) && Stripped(Strip(s[..n]))
    ensures forall c :: c in Strip(s[..n]) ==> !IsBreak(c)
  {
    hide *;
    var line := s[..n];
    StripKeeps(line);
    var at, m := Leading(line), |Strip(line)|;
    SliceOfSlice(s, 0, n, at, at + m);
    assert s[0..n] == line;
    SliceIsTidy(s, at, at + m);
  }

  lemma SliceIsTidy(s: string, lo: nat, hi: nat)
    requires Squeezed(s) && lo <= hi <= |s| && forall i :: lo <= i < hi ==> !IsBreak(s[i])
    ensures Tidy(s[lo..hi]) && forall c :: c in s[lo..hi] ==> !IsBreak(c)
  {
    var part := s[lo..hi];
    hide IsSpace;
    assert forall i :: 0 <= i < |part| ==> part[i] == s[lo + i] && !IsBreak(part[i]);
    assert IsBreak('\n');
  }

  lemma JoinIsTidy(a: string, b: string)
    requires Tidy(a) && Tidy(b) && Stripped(a) && (forall c :: c in a ==> !IsBreak(c)) && (b != "" ==> Edge(b[0]))
    ensures Tidy(a + "\n" + b) && Edge((a + "\n" + b)[0])
  {
    var r := a + "\n" + b;
    hide IsSpace;
    assert forall i :: 0 <= i < |a| ==> r[i] == a[i];
    assert forall i :: 0 <= i < |b| ==> r[|a| + 1 + i] == b[i];
    assert a != "" ==> a[0] in a;
  }

  lemma {:induction false} SqueezeNewlinesTidies(s: string)
    requires Tidy(s)
    ensures var r := SqueezeNewlines(s);
            && Tidy(r) && (r == "" <==> s == "") && (s != "" ==> r[0] == s[0])
            && (|r| > 1 && r[0] == r[1] == '\n' ==> |s| > 1 && s[1] == '\n')
            && forall i :: 0 <= i < |r| ==> !Triple(r, i)
  {
    if s != "" {
      TidyTail(s);
      SqueezeNewlinesTidies(s[1..]);
      if !Triple(s, 0) {
        PushTidy(s[0], SqueezeNewlines(s[1..]));
      }
    }
  }

  lemma TidyTail(s: string)
    requires Tidy(s) && s != ""
    ensures Tidy(s[1..])
  {
    hide IsSpace;
    assert forall i :: 0 <= i < |s| - 1 ==> s[1..][i] == s[i + 1];
  }

  lemma PushTidy(c: char, r: string)
    requires Tidy(r) && Allowed(c) && (r != "" ==> Beside(c, r[0]))
    requires forall i :: 0 <= i < |r| ==> !Triple(r, i)
    requires c == '\n' && |r| > 1 ==> !(r[0] == r[1] == '\n')
    ensures Tidy([c] + r) && forall i :: 0 <= i < |r| + 1 ==> !Triple([c] + r, i)
  {
    var all := [c] + r;
    hide IsSpace;
    assert forall i :: 0 <= i < |r| ==> all[i + 1] == r[i];
    forall i | 0 <= i < |all|
      ensures !Triple(all, i)
    {
      if i > 0 { assert !Triple(r, i - 1); }
    }
  }

  lemma TidySlice(s: string, lo: nat, hi: nat)
    requires lo <= hi <= |s| && Tidy(s) && forall i :: 0 <= i < |s| ==> !Triple(s, i)
    ensures Tidy(s[lo..hi]) && forall i :: 0 <= i < hi - lo ==> !Triple(s[lo..hi], i)
  {
    var part := s[lo..hi];
    hide IsSpace;
    assert forall i :: 0 <= i < |part| ==> part[i] == s[lo + i];
    forall i | 0 <= i < |part|
      ensures !Triple(part, i)
    {
      assert !Triple(s, lo + i);
    }
  }

  /** Whatever a page yields, its text comes out in canonical form. */
  lemma NormalisedIsCanonical(raw: string)
    ensures Canonical(Normalised(raw))
  {
    hide *;
    var squeezed := SqueezeBlanks(WithoutNul(raw));
    WithoutNulHasNone(raw);
    SqueezeBlanksSqueezes(WithoutNul(raw));
    RelinedIsTidy(squeezed);
    SqueezeNewlinesTidies(Relined(squeezed));
    NormalisedIs(raw);
    StripIsCanonical(SqueezeNewlines(Relined(squeezed)));
  }

  lemma StripIsCanonical(s: string)
    requires Tidy(s) && forall i :: 0 <= i < |s| ==> !Triple(s, i)
    ensures Canonical(Strip(s))
  {
    hide *;
    StripKeeps(s);
    TidySlice(s, Leading(s), Leading(s) + |Strip(s)|);
    CanonicalIs(Strip(s));
  }

  lemma CanonicalIs(s: string)
    requires Tidy(s) && Stripped(s) && forall i :: 0 <= i < |s| ==> !Triple(s, i)
    ensures Canonical(s)
  {
  }

  // ---- Leaving it alone ----

  lemma {:induction false} WithoutNulSame(s: string)
    requires NUL !in s
    ensures WithoutNul(s) == s
  {
    if s != "" {
      WithoutNulSame(s[1..]);
      assert s == [s[0]] + s[1..];
    }
  }

  lemma {:induction false} SqueezeBlanksSame(s: string)
    requires Squeezed(s)
    ensures SqueezeBlanks(s) == s
  {
    if s != "" {
      assert Squeezed(s[1..]);
      SqueezeBlanksSame(s[1..]);
      assert s == [s[0]] + s[1..];
      assert IsBlank(s[0]) && |s| > 1 ==> s[0] == ' ' && !IsBlank(s[1]);
    }
  }

  lemma {:induction false} SqueezeNewlinesSame(s: string)
    requires forall i :: 0 <= i < |s| ==> !Triple(s, i)
    ensures SqueezeNewlines(s) == s
  {
    if s != "" {
      assert forall i :: 0 <= i < |s[1..]| ==> (Triple(s[1..], i) ==> Triple(s, i + 1));
      SqueezeNewlinesSame(s[1..]);
      assert s == [s[0]] + s[1..];
    }
  }

  /** Lines that are stripped already come back as they were. */
  lemma {:induction false} RelinedSame(s: string)
    requires Tidy(s) && s != "" && Edge(s[0]) && !IsSpace(s[|s| - 1])
    ensures Relined(s) == s
    decreases |s|
  {
    hide *;
    var n := LineEnd(s);
    RelinedStep(s);
    FirstLineIsStripped(s);
    StripOfStripped(s[..n]);
    if n < |s| {
      var rest := s[n + 1..];
      RestIsTidy(s, n);
      RelinedSame(rest);
      assert s == s[..n] + "\n" + rest;
    } else {
      assert s[..n] == s;
    }
  }

  lemma FirstLineIsStripped(s: string)
    requires Tidy(s) && s != "" && Edge(s[0]) && !IsSpace(s[|s| - 1])
    ensures var n := LineEnd(s); Stripped(s[..n]) && (n < |s| ==> n < |s| - 1 && s[n] == '\n')
  {
    var n := LineEnd(s);
    assert n > 0 ==> !IsBreak(s[0]);
    if n < |s| {
      assert Allowed(s[n]);
      assert n > 0 ==> Beside(s[n - 1], s[n]) && !IsBreak(s[n - 1]);
      assert IsSpace('\n');
    }
  }

  lemma RestIsTidy(s: string, n: nat)
    requires Tidy(s) && n < |s| - 1 && s[n] == '\n' && !IsSpace(s[|s| - 1])
    ensures Tidy(s[n + 1..]) && Edge(s[n + 1]) && !IsSpace(s[n + 1..][|s| - n - 2])
  {
    var rest := s[n + 1..];
    assert Beside(s[n], s[n + 1]);
    hide IsSpace;
    assert forall i :: 0 <= i < |rest| ==> rest[i] == s[n + 1 + i];
  }

  lemma CanonicalStays(s: string)
    requires Canonical(s)
    ensures Normalised(s) == s
  {
    if s != "" {
      assert forall c :: c in s ==> Allowed(c);
      WithoutNulSame(s);
      assert Squeezed(s);
      SqueezeBlanksSame(s);
      RelinedSame(s);
      SqueezeNewlinesSame(s);
    }
    StripOfStripped(s);
  }

  /** The fixed points are exactly the canonical texts. */
  lemma FixedPointsAreCanonical(s: string)
    ensures Normalised(s) == s <==> Canonical(s)
  {
    NormalisedIsCanonical(s);
    if Canonical(s) { CanonicalStays(s); }
  }

  lemma NormalisingTwiceIsOnce(raw: string)
    ensures Normalised(Normalised(raw)) == Normalised(raw)
  {
    NormalisedIsCanonical(raw);
    CanonicalStays(Normalised(raw));
  }

  // ---- Losing nothing ----

  /** The characters that are neither whitespace nor NUL, in order. */
  function Ink(s: string): string {
    if s == "" then "" else (if IsSpace(s[0]) || s[0] == NUL then "" else [s[0]]) + Ink(s[1..])
  }

  lemma {:induction false} InkOfSum(a: string, b: string)
    ensures Ink(a + b) == Ink(a) + Ink(b)
  {
    if a == "" {
      assert a + b == b;
    } else {
      assert (a + b)[1..] == a[1..] + b;
      InkOfSum(a[1..], b);
    }
  }

  lemma {:induction false} InkOfSpace(s: string)
    requires AllSpace(s)
    ensures Ink(s) == ""
  {
    if s != "" { InkOfSpace(s[1..]); }
  }

  lemma InkOfStrip(s: string)
    ensures Ink(Strip(s)) == Ink(s)
  {
    hide *;
    var n, m := Leading(s), Leading(s) + |Strip(s)|;
    StripKeeps(s);
    LeadingIsSpace(s);
    InkOfEnds(s, n, m);
  }

  lemma InkOfEnds(s: string, n: nat, m: nat)
    requires n <= m <= |s|
    requires (forall i :: 0 <= i < n ==> IsSpace(s[i])) && (forall i :: m <= i < |s| ==> IsSpace(s[i]))
    ensures Ink(s[n..m]) == Ink(s)
  {
    hide IsSpace, Ink;
    assert AllSpace(s[..n]) && AllSpace(s[m..]);
    assert s == s[..n] + s[n..m] + s[m..];
    hide *;
    InkOfSum(s[..n] + s[n..m], s[m..]);
    InkOfSum(s[..n], s[n..m]);
    InkOfSpace(s[..n]);
    InkOfSpace(s[m..]);
  }

  lemma {:induction false} InkOfWithoutNul(s: string)
    ensures Ink(WithoutNul(s)) == Ink(s)
  {
    if s != "" {
      InkOfWithoutNul(s[1..]);
      if s[0] != NUL {
        assert WithoutNul(s) == [s[0]] + WithoutNul(s[1..]);
        assert WithoutNul(s)[1..] == WithoutNul(s[1..]);
      } else {
        assert WithoutNul(s) == WithoutNul(s[1..]);
      }
    }
  }

  lemma {:induction false} InkOfSqueezeBlanks(s: string)
    ensures Ink(SqueezeBlanks(s)) == Ink(s)
  {
    if s != "" {
      InkOfSqueezeBlanks(s[1..]);
      if !IsBlank(s[0]) || !(|s| > 1 && IsBlank(s[1])) {
        assert SqueezeBlanks(s)[1..] == SqueezeBlanks(s[1..]);
      }
    }
  }

  lemma {:induction false} InkOfSqueezeNewlines(s: string)
    ensures Ink(SqueezeNewlines(s)) == Ink(s)
  {
    if s != "" {
      InkOfSqueezeNewlines(s[1..]);
      if !Triple(s, 0) {
        assert SqueezeNewlines(s)[1..] == SqueezeNewlines(s[1..]);
      }
    }
  }

  lemma NothingInNothing()
    ensures Relined("") == "" && Ink("") == "" && AllSpace("\n")
  {
  }

  lemma {:induction false} InkOfRelined(s: string)
    ensures Ink(Relined(s)) == Ink(s)
    decreases |s|
  {
    hide *;
    NothingInNothing();
    if s != "" {
      var n := LineEnd(s);
      RelinedStep(s);
      InkOfStrip(s[..n]);
      if n < |s| {
        var rest := s[n + 1..];
        InkOfRelined(rest);
        InkOfLine(s, n);
        InkOfBreak(Strip(s[..n]), "\n", Relined(rest));
        assert n == |s| - 1 ==> rest == "";
      } else {
        assert s[..n] == s;
      }
    }
  }

  lemma InkOfLine(s: string, n: nat)
    requires n < |s| && IsBreak(s[n])
    ensures Ink(s) == Ink(s[..n]) + Ink(s[n + 1..])
  {
    assert s == s[..n] + [s[n]] + s[n + 1..];
    InkOfBreak(s[..n], [s[n]], s[n + 1..]);
  }

  lemma InkOfBreak(a: string, sep: string, b: string)
    requires AllSpace(sep)
    ensures Ink(a + sep + b) == Ink(a) + Ink(b)
  {
    InkOfSum(a + sep, b);
    InkOfSum(a, sep);
    InkOfSpace(sep);
  }

  /** Tidying removes whitespace and NULs and nothing else. */
  lemma NormalisedKeepsInk(raw: string)
    ensures Ink(Normalised(raw)) == Ink(raw)
  {
    hide *;
    NormalisedIs(raw);
    InkOfWithoutNul(raw);
    InkOfSqueezeBlanks(WithoutNul(raw));
    InkOfRelined(SqueezeBlanks(WithoutNul(raw)));
    InkOfSqueezeNewlines(Relined(SqueezeBlanks(WithoutNul(raw))));
    InkOfStrip(SqueezeNewlines(Relined(SqueezeBlanks(WithoutNul(raw)))));
  }

  lemma NormalisedIs(raw: string)
    ensures Normalised(raw) == Strip(SqueezeNewlines(Relined(SqueezeBlanks(WithoutNul(raw)))))
  {
  }

  // ---- Words, lines and paragraphs ----

  /** A visible character and the gap in front of it: 0 none, 1 within a line, 2 one line break, 3 more, or the front. */
  datatype Piece = Piece(gap: nat, ink: char)

  /** A gap with one more whitespace character. */
  function Wider(gap: nat, c: char): nat {
    if IsBreak(c) then (if gap < 2 then 2 else 3) else if gap == 0 then 1 else gap
  }

  /** The visible characters of a text, each with its gap; the first one's gap goes on from `gap`. */
  function Shape(s: string, gap: nat): seq<Piece> {
    if s == "" then []
    else if s[0] == NUL then Shape(s[1..], gap)
    else if IsSpace(s[0]) then Shape(s[1..], Wider(gap, s[0]))
    else [Piece(gap, s[0])] + Shape(s[1..], 0)
  }

  /** The gap a text leaves open at its end. */
  function GapAfter(s: string, gap: nat): nat {
    if s == "" then gap
    else if s[0] == NUL then GapAfter(s[1..], gap)
    else if IsSpace(s[0]) then GapAfter(s[1..], Wider(gap, s[0]))
    else GapAfter(s[1..], 0)
  }

  lemma ShapeCons(c: char, rest: string, gap: nat)
    ensures Shape("", gap) == [] && GapAfter("", gap) == gap
    ensures c == NUL ==> Shape([c] + rest, gap) == Shape(rest, gap) && GapAfter([c] + rest, gap) == GapAfter(rest, gap)
    ensures c != NUL && IsSpace(c) ==>
              && Shape([c] + rest, gap) == Shape(rest, Wider(gap, c))
              && GapAfter([c] + rest, gap) == GapAfter(rest, Wider(gap, c))
    ensures c != NUL && !IsSpace(c) ==>
              Shape([c] + rest, gap) == [Piece(gap, c)] + Shape(rest, 0) && GapAfter([c] + rest, gap) == GapAfter(rest, 0)
  {
    assert ([c] + rest)[0] == c && ([c] + rest)[1..] == rest;
    hide IsSpace, Wider;
  }

  lemma {:induction false} ShapeAppend(a: string, b: string, gap: nat)
    ensures Shape(a + b, gap) == Shape(a, gap) + Shape(b, GapAfter(a, gap))
    ensures GapAfter(a + b, gap) == GapAfter(b, GapAfter(a, gap))
  {
    hide *;
    if a == "" {
      ShapeCons('a', "", gap);
      assert a + b == b && [] + Shape(b, gap) == Shape(b, gap);
    } else {
      var c, rest := a[0], a[1..];
      assert a == [c] + rest && a + b == [c] + (rest + b);
      ShapeCons(c, rest, gap);
      ShapeCons(c, rest + b, gap);
      ShapeAppend(rest, b, gap);
      ShapeAppend(rest, b, Wider(gap, c));
      ShapeAppend(rest, b, 0);
      assert [Piece(gap, c)] + (Shape(rest, 0) + Shape(b, GapAfter(rest, 0)))
          == [Piece(gap, c)] + Shape(rest, 0) + Shape(b, GapAfter(rest, 0));
    }
  }

  lemma {:induction false} ShapeOfWithoutNul(s: string, gap: nat)
    ensures Shape(WithoutNul(s), gap) == Shape(s, gap)
  {
    if s == "" {
    } else if s[0] == NUL {
      ShapeOfWithoutNul(s[1..], gap);
      assert WithoutNul(s) == WithoutNul(s[1..]);
    } else {
      ShapeOfWithoutNul(s[1..], Wider(gap, s[0]));
      ShapeOfWithoutNul(s[1..], 0);
      ShapeCons(s[0], WithoutNul(s[1..]), gap);
      assert WithoutNul(s) == [s[0]] + WithoutNul(s[1..]);
    }
  }

  /** Blanks widen a gap as one space does, and a second one no further. */
  lemma BlankWidens(gap: nat, a: char)
    requires IsBlank(a)
    ensures IsSpace(a) && a != NUL && Wider(gap, a) == Wider(gap, ' ') == Wider(Wider(gap, ' '), ' ')
  {
  }

  lemma {:induction false} ShapeOfSqueezeBlanks(s: string, gap: nat)
    ensures Shape(SqueezeBlanks(s), gap) == Shape(s, gap)
    ensures s != "" && IsBlank(s[0]) ==> Shape(SqueezeBlanks(s), gap) == Shape(SqueezeBlanks(s), Wider(gap, ' '))
    decreases |s|
  {
    if s != "" {
      var rest := SqueezeBlanks(s[1..]);
      if !IsBlank(s[0]) {
        ShapeCons(s[0], rest, gap);
        ShapeOfSqueezeBlanks(s[1..], gap);
        ShapeOfSqueezeBlanks(s[1..], Wider(gap, s[0]));
        ShapeOfSqueezeBlanks(s[1..], 0);
        hide Wider, IsSpace, IsBlank;
      } else {
        BlankWidens(gap, s[0]);
        BlankWidens(gap, ' ');
        BlankWidens(Wider(gap, ' '), ' ');
        ShapeCons(' ', rest, gap);
        ShapeCons(' ', rest, Wider(gap, ' '));
        ShapeOfSqueezeBlanks(s[1..], gap);
        ShapeOfSqueezeBlanks(s[1..], Wider(gap, ' '));
        hide Wider, IsSpace, IsBlank;
        assert Shape(s, gap) == Shape(s[1..], Wider(gap, ' '));
      }
    }
  }

  lemma {:induction false} ShapeOfSpace(s: string, gap: nat)
    requires AllSpace(s)
    ensures Shape(s, gap) == []
    ensures gap == 3 ==> GapAfter(s, gap) == 3
    ensures gap >= 1 && (forall c :: c in s ==> !IsBreak(c)) ==> GapAfter(s, gap) == gap
  {
    if s != "" {
      ShapeOfSpace(s[1..], Wider(gap, s[0]));
      ShapeOfSpace(s[1..], gap);
    }
  }

  /** What stripping takes off either end. */
  lemma StripSplits(s: string) returns (front: string, back: string)
    ensures s == front + (Strip(s) + back) && AllSpace(front) && AllSpace(back)
    ensures (forall c :: c in front ==> c in s) && forall c :: c in back ==> c in s
  {
    StripKeeps(s);
    var n := Leading(s);
    var m := n + |Strip(s)|;
    front, back := s[..n], s[m..];
    hide Strip, Leading, IsSpace;
    assert s == s[..n] + (s[n..m] + s[m..]);
  }

  /** Where a text begins a line, or has a wide gap before it anyway, whitespace at its ends does not count. */
  lemma ShapeOfStrip(s: string, gap: nat)
    requires gap == 3 || (gap >= 1 && forall c :: c in s ==> !IsBreak(c))
    ensures Shape(Strip(s), gap) == Shape(s, gap)
  {
    hide *;
    var front, back := StripSplits(s);
    var body := Strip(s);
    ShapeOfSpace(front, gap);
    ShapeAppend(front, body + back, gap);
    ShapeAppend(body, back, gap);
    ShapeOfSpace(back, GapAfter(body, gap));
    assert [] + Shape(body + back, gap) == Shape(body, gap) + [];
  }

  /** Of a line only whitespace at its end is left out of the gap behind it, and the break fills that. */
  lemma GapAfterLine(line: string, gap: nat, c: char)
    requires gap >= 2 && IsBreak(c) && forall d :: d in line ==> !IsBreak(d)
    ensures Wider(GapAfter(Strip(line), gap), '\n') == Wider(GapAfter(line, gap), c)
    ensures Wider(GapAfter(line, gap), c) >= 2 && IsSpace(c) && c != NUL
  {
    hide *;
    var front, back := StripSplits(line);
    var body := Strip(line);
    ShapeOfSpace(front, gap);
    ShapeAppend(front, body + back, gap);
    ShapeAppend(body, back, gap);
    GapOfBlanks(back, GapAfter(body, gap), c);
  }

  lemma GapOfBlanks(s: string, gap: nat, c: char)
    requires AllSpace(s) && IsBreak(c) && forall d :: d in s ==> !IsBreak(d)
    ensures Wider(GapAfter(s, gap), c) == Wider(gap, '\n') >= 2 && IsSpace(c) && c != NUL
  {
    if s != "" {
      GapOfBlanks(s[1..], Wider(gap, s[0]), c);
    }
  }

  /** A text that begins a line has the same shape with its lines stripped and joined. */
  lemma {:induction false} ShapeOfRelined(s: string, gap: nat)
    requires gap >= 2
    ensures Shape(Relined(s), gap) == Shape(s, gap)
    decreases |s|
  {
    hide *;
    if s == "" {
      RelinedNothing();
    } else {
      RelinedStep(s);
      var n := LineEnd(s);
      var line := s[..n];
      LineHasNoBreak(s);
      ShapeOfStrip(line, gap);
      if n == |s| {
        assert line == s;
      } else {
        var c, rest := s[n], s[n + 1..];
        assert s == line + ([c] + rest);
        ShapeAppend(line, [c] + rest, gap);
        GapAfterLine(line, gap, c);
        ShapeCons(c, rest, GapAfter(line, gap));
        var next := Wider(GapAfter(line, gap), c);
        if rest == "" {
          ShapeCons(c, "", next);
          assert Shape(line, gap) + [] == Shape(line, gap);
        } else {
          ShapeOfRelined(rest, next);
          NewlineIsBreak();
          assert Strip(line) + "\n" + Relined(rest) == Strip(line) + (['\n'] + Relined(rest));
          ShapeAppend(Strip(line), ['\n'] + Relined(rest), gap);
          ShapeCons('\n', Relined(rest), GapAfter(Strip(line), gap));
        }
      }
    }
  }

  lemma RelinedNothing()
    ensures Relined("") == ""
  {
    assert SplitLines("") == [] && StripAll([]) == [];
  }

  lemma NewlineIsBreak()
    ensures IsBreak('\n') && IsSpace('\n') && '\n' != NUL
  {
  }

  lemma LineHasNoBreak(s: string)
    ensures forall d :: d in s[..LineEnd(s)] ==> !IsBreak(d)
    ensures LineEnd(s) < |s| ==> IsBreak(s[LineEnd(s)])
  {
  }

  lemma NewlinesWiden(gap: nat)
    ensures Wider(Wider(gap, '\n'), '\n') == 3 == Wider(3, '\n')
  {
  }

  lemma TwoNewlines(rest: string, gap: nat)
    ensures Shape("\n\n" + rest, gap) == Shape(rest, 3)
  {
    NewlineIsBreak();
    NewlinesWiden(gap);
    hide *;
    assert "\n\n" + rest == ['\n'] + (['\n'] + rest);
    ShapeCons('\n', ['\n'] + rest, gap);
    ShapeCons('\n', rest, Wider(gap, '\n'));
  }

  lemma {:induction false} ShapeOfSqueezeNewlines(s: string, gap: nat)
    ensures Shape(SqueezeNewlines(s), gap) == Shape(s, gap)
    decreases |s|
  {
    if s == "" {
    } else if Triple(s, 0) {
      ShapeOfSqueezeNewlines(s[1..], gap);
      var rest := s[3..];
      assert s[1..] == "\n\n" + rest && s == ['\n'] + s[1..];
      NewlineIsBreak();
      assert SqueezeNewlines(s) == SqueezeNewlines(s[1..]);
      hide *;
      ShapeCons('\n', s[1..], gap);
      TwoNewlines(rest, gap);
      TwoNewlines(rest, Wider(gap, '\n'));
    } else {
      assert SqueezeNewlines(s) == [s[0]] + SqueezeNewlines(s[1..]) && s == [s[0]] + s[1..];
      hide *;
      ShapeOfSqueezeNewlines(s[1..], gap);
      ShapeOfSqueezeNewlines(s[1..], Wider(gap, s[0]));
      ShapeOfSqueezeNewlines(s[1..], 0);
      ShapeCons(s[0], s[1..], gap);
      ShapeCons(s[0], SqueezeNewlines(s[1..]), gap);
    }
  }

  /**
   * Tidying keeps every visible character and what separates it from the one before: nothing, whitespace
   * within a line, one line break, or more. So no word, line or paragraph is joined to another or split.
   */
  lemma NormalisedKeepsShape(raw: string)
    ensures Shape(Normalised(raw), 3) == Shape(raw, 3)
  {
    hide *;
    NormalisedIs(raw);
    var squeezed := SqueezeBlanks(WithoutNul(raw));
    ShapeOfWithoutNul(raw, 3);
    ShapeOfSqueezeBlanks(WithoutNul(raw), 3);
    ShapeOfRelined(squeezed, 3);
    ShapeOfSqueezeNewlines(Relined(squeezed), 3);
    ShapeOfStrip(SqueezeNewlines(Relined(squeezed)), 3);
  }

  // ---- The text of a document ----

  function NonEmpty(pages: seq<string>): (r: seq<string>)
    ensures forall p :: p in r ==> p in pages && p != ""
  {
    if pages == [] then []
    else (if pages[0] == "" then [] else [pages[0]]) + NonEmpty(pages[1..])
  }

  function Pages(raws: seq<string>): (r: seq<string>)
    ensures |r| == |raws| && forall i :: 0 <= i < |r| ==> r[i] == Normalised(raws[i])
  {
    seq(|raws|, i requires 0 <= i < |raws| => Normalised(raws[i]))
  }

  function DocumentText(raws: seq<string>): string {
    Strip(Joined(NonEmpty(Pages(raws)), "\n\n"))
  }

  datatype Extracted = Extracted(text: string, pages: seq<string>)

  datatype ExtractionError = NoTextLayer(found: nat)

  method ExtractText(raws: seq<string>, minimum: nat) returns (r: Result<Extracted, ExtractionError>)
    ensures r == if |DocumentText(raws)| < minimum then Failure(NoTextLayer(|DocumentText(raws)|))
                 else Success(Extracted(DocumentText(raws), Pages(raws)))
  {
    var pages := [];
    hide Normalised, NonEmpty, Joined, Strip;
    for i := 0 to |raws|
      invariant pages == Pages(raws)[..i]
    {
      pages := pages + [Normalised(raws[i])];
    }
    assert pages == Pages(raws);
    var text := Strip(Joined(NonEmpty(pages), "\n\n"));
    if |text| < minimum {
      return Failure(NoTextLayer(|text|));
    }
    r := Success(Extracted(text, pages));
  }

  /** Where the characters of two texts stand with a blank line between them. */
  lemma GapChars(a: string, b: string, s: string)
    requires s == a + "\n\n" + b
    ensures forall i :: 0 <= i < |a| ==> s[i] == a[i]
    ensures forall i :: 0 <= i < |b| ==> s[|a| + 2 + i] == b[i]
    ensures s[|a|] == '\n' && s[|a| + 1] == '\n'
  {
  }

  lemma GapHasNoTriple(a: string, b: string, s: string, i: nat)
    requires s == a + "\n\n" + b && a != "" && b != "" && a[|a| - 1] != '\n' && b[0] != '\n'
    requires i < |a| ==> !Triple(a, i)
    requires |a| + 2 <= i < |s| ==> !Triple(b, i - |a| - 2)
    ensures !Triple(s, i)
  {
    GapChars(a, b, s);
    assert s[|a| - 1] == a[|a| - 1] && s[|a| + 2] == b[0];
  }

  lemma GapIsTidy(a: string, b: string, s: string)
    requires s == a + "\n\n" + b && a != "" && b != "" && Tidy(a) && Tidy(b)
    requires !IsSpace(a[|a| - 1]) && !IsSpace(b[0])
    ensures Tidy(s)
  {
    GapChars(a, b, s);
    var n := |a|;
    assert Allowed('\n');
    assert Beside(s[n - 1], '\n') && Beside('\n', '\n') && Beside('\n', s[n + 2]);
    hide Allowed, Beside;
    forall i | 0 <= i < |s| - 1
      ensures Beside(s[i], s[i + 1])
    {
      if i < n - 1 {
        assert Beside(a[i], a[i + 1]);
      } else if i >= n + 2 {
        assert Beside(b[i - n - 2], b[i - n - 1]);
      }
    }
  }

  lemma GapIsCanonical(a: string, b: string)
    requires Canonical(a) && Canonical(b) && a != "" && b != ""
    ensures Canonical(a + "\n\n" + b)
  {
    var s := a + "\n\n" + b;
    assert Stripped(a) && Stripped(b) && Stripped(s);
    assert forall i :: 0 <= i < |a| ==> !Triple(a, i);
    assert forall i :: 0 <= i < |b| ==> !Triple(b, i);
    assert Tidy(a) && Tidy(b);
    hide *;
    EndsAreInk(a, b);
    GapIsTidy(a, b, s);
    forall i | 0 <= i < |s|
      ensures !Triple(s, i)
    {
      GapHasNoTriple(a, b, s, i);
    }
    CanonicalIs(s);
  }

  lemma EndsAreInk(a: string, b: string)
    requires Stripped(a) && Stripped(b) && a != "" && b != ""
    ensures !IsSpace(a[|a| - 1]) && !IsSpace(b[0]) && a[|a| - 1] != '\n' && b[0] != '\n'
  {
  }

  lemma {:induction false} JoinedIsCanonical(pages: seq<string>)
    requires forall p :: p in pages ==> Canonical(p) && p != ""
    ensures Canonical(Joined(pages, "\n\n")) && (pages != [] ==> Joined(pages, "\n\n") != "")
  {
    if |pages| > 1 {
      assert forall p :: p in pages[1..] ==> p in pages;
      JoinedIsCanonical(pages[1..]);
      assert pages[0] in pages;
      hide Canonical;
      GapIsCanonical(pages[0], Joined(pages[1..], "\n\n"));
    }
  }

  /** The whole text is canonical too, so the last `strip` has nothing to do. */
  lemma DocumentTextIsCanonical(raws: seq<string>)
    ensures Canonical(DocumentText(raws))
    ensures DocumentText(raws) == Joined(NonEmpty(Pages(raws)), "\n\n")
  {
    var pages := Pages(raws);
    forall p | p in pages
      ensures Canonical(p)
    {
      var i :| 0 <= i < |pages| && pages[i] == p;
      NormalisedIsCanonical(raws[i]);
    }
    var text := Joined(NonEmpty(pages), "\n\n");
    JoinedIsCanonical(NonEmpty(pages));
    assert Canonical(text) ==> Stripped(text);
    StripOfStripped(text);
  }

  /** All the ink of a document, page after page. */
  function InkOfAll(texts: seq<string>): string {
    if texts == [] then "" else Ink(texts[0]) + InkOfAll(texts[1..])
  }

  lemma {:induction false} InkOfJoined(pages: seq<string>)
    ensures Ink(Joined(NonEmpty(pages), "\n\n")) == InkOfAll(pages)
  {
    if pages != [] {
      var more := NonEmpty(pages[1..]);
      InkOfJoined(pages[1..]);
      if pages[0] == "" {
        assert NonEmpty(pages) == more;
      } else if more == [] {
        assert NonEmpty(pages) == [pages[0]];
      } else {
        assert NonEmpty(pages) == [pages[0]] + more;
        assert AllSpace("\n\n");
        InkOfBreak(pages[0], "\n\n", Joined(more, "\n\n"));
      }
    }
  }

  lemma {:induction false} InkOfPages(raws: seq<string>)
    ensures InkOfAll(Pages(raws)) == InkOfAll(raws)
  {
    if raws != [] {
      NormalisedKeepsInk(raws[0]);
      InkOfPages(raws[1..]);
      assert Pages(raws)[1..] == Pages(raws[1..]);
    }
  }

  /** No character of any page is lost on the way into the text. */
  lemma DocumentTextKeepsInk(raws: seq<string>)
    ensures Ink(DocumentText(raws)) == InkOfAll(raws)
  {
    DocumentTextIsCanonical(raws);
    InkOfJoined(Pages(raws));
    InkOfPages(raws);
    hide *;
  }

  /** The shapes of all pages, one behind the other; each begins as a text does. */
  function ShapeOfAll(texts: seq<string>): seq<Piece> {
    if texts == [] then [] else Shape(texts[0], 3) + ShapeOfAll(texts[1..])
  }

  lemma JoinedMore(page: string, more: seq<string>)
    ensures Joined([page] + more, "\n\n") == if more == [] then page else page + "\n\n" + Joined(more, "\n\n")
  {
    assert ([page] + more)[1..] == more;
  }

  lemma {:induction false} ShapeOfJoined(pages: seq<string>)
    ensures Shape(Joined(NonEmpty(pages), "\n\n"), 3) == ShapeOfAll(pages)
  {
    hide *;
    PagesStep(pages);
    NothingJoined();
    if pages != [] {
      ShapeOfJoined(pages[1..]);
      var page, more := pages[0], NonEmpty(pages[1..]);
      if page == "" {
        assert [] + ShapeOfAll(pages[1..]) == ShapeOfAll(pages[1..]);
      } else {
        JoinedMore(page, more);
        if more == [] {
          assert Shape(page, 3) + [] == Shape(page, 3);
        } else {
          var rest := Joined(more, "\n\n");
          assert page + "\n\n" + rest == page + ("\n\n" + rest);
          ShapeAppend(page, "\n\n" + rest, 3);
          TwoNewlines(rest, GapAfter(page, 3));
        }
      }
    }
  }

  lemma PagesStep(pages: seq<string>)
    ensures pages == [] ==> NonEmpty(pages) == [] && ShapeOfAll(pages) == []
    ensures pages != [] ==>
              && ShapeOfAll(pages) == Shape(pages[0], 3) + ShapeOfAll(pages[1..])
              && NonEmpty(pages) == (if pages[0] == "" then NonEmpty(pages[1..]) else [pages[0]] + NonEmpty(pages[1..]))
              && (pages[0] == "" ==> Shape(pages[0], 3) == [])
  {
  }

  lemma NothingJoined()
    ensures Shape(Joined([], "\n\n"), 3) == []
  {
  }

  lemma {:induction false} ShapeOfPages(raws: seq<string>)
    ensures ShapeOfAll(Pages(raws)) == ShapeOfAll(raws)
  {
    if raws != [] {
      assert Pages(raws)[1..] == Pages(raws[1..]) && Pages(raws)[0] == Normalised(raws[0]);
      hide Shape, Normalised;
      NormalisedKeepsShape(raws[0]);
      ShapeOfPages(raws[1..]);
    }
  }

  /** Words, lines and paragraphs of all pages come through, and each page begins a paragraph. */
  lemma DocumentTextKeepsShape(raws: seq<string>)
    ensures Shape(DocumentText(raws), 3) == ShapeOfAll(raws)
  {
    hide *;
    DocumentTextIsCanonical(raws);
    ShapeOfJoined(Pages(raws));
    ShapeOfPages(raws);
  }
}
