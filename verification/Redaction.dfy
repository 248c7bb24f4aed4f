/**
 * `redact` splices numbered placeholders into a text; `restore` substitutes the values back.
 *
 * A placeholder is a token: its brackets stand at its ends and nowhere else. So an occurrence of a token
 * next to another token lies beside it or is exactly it, and replacing one token works on the text in
 * front of another and on the text behind it separately (`ReplaceAround`).
 */
module Redaction {
  import opened Strings
  import opened Detection

  /** A Python `dict` from placeholder to value: pairs in insertion order. */
  type Mapping = seq<(string, string)>

  datatype RedactionResult = RedactionResult(text: string, matches: seq<Match>, mapping: Mapping)

  /** `mapping[key] = value`: an existing key keeps its place. */
  function Put(mapping: Mapping, key: string, value: string): Mapping {
    if mapping == [] then [(key, value)]
    else if mapping[0].0 == key then [(key, value)] + mapping[1..]
    else [mapping[0]] + Put(mapping[1..], key, value)
  }

  function MappingOf(ms: seq<Match>): Mapping {
    if ms == [] then []
    else Put(MappingOf(ms[..|ms| - 1]), ms[|ms| - 1].placeholder, ms[|ms| - 1].value)
  }

  /** Matches that follow one another in the text from `cursor` on, each with the value it spans. */
  predicate Chain(text: string, ms: seq<Match>, cursor: nat) {
    if ms == [] then cursor <= |text|
    else
      && cursor <= ms[0].start < ms[0].end <= |text|
      && ms[0].value == text[ms[0].start..ms[0].end]
      && Chain(text, ms[1..], ms[0].end)
  }

  /** The text from `cursor` on with every match replaced by its placeholder. */
  function Spliced(text: string, ms: seq<Match>, cursor: nat): string
    requires Chain(text, ms, cursor)
  {
    if ms == [] then text[cursor..]
    else text[cursor..ms[0].start] + ms[0].placeholder + Spliced(text, ms[1..], ms[0].end)
  }

  function Join(parts: seq<string>): string {
    if parts == [] then "" else Join(parts[..|parts| - 1]) + parts[|parts| - 1]
  }

  lemma {:induction false} ChainFromSeparate(text: string, ms: seq<Match>, cursor: nat)
    requires Separate(ms) && cursor <= |text| && (ms != [] ==> cursor <= ms[0].start)
    requires forall m :: m in ms ==> FaithfulTo(text, m)
    ensures Chain(text, ms, cursor)
  {
    if ms != [] {
      assert ms[0] in ms;
      ChainFromSeparate(text, ms[1..], ms[0].end);
    }
  }

  lemma DetectedChain(text: string, reserved: seq<seq<Span>>, patterns: seq<Pattern>, accept: Accept)
    requires ValidScan(text, patterns)
    ensures Chain(text, Detected(text, reserved, patterns, accept), 0)
  {
    DetectIsSound(text, reserved, patterns, accept);
    ChainFromSeparate(text, Detected(text, reserved, patterns, accept), 0);
  }

  /** The result of `redact`. */
  function Redacted(text: string, reserved: seq<seq<Span>>, patterns: seq<Pattern>, accept: Accept): RedactionResult
    requires ValidScan(text, patterns)
  {
    var ms := Detected(text, reserved, patterns, accept);
    DetectedChain(text, reserved, patterns, accept);
    RedactionResult(Spliced(text, ms, 0), ms, MappingOf(ms))
  }

  lemma {:induction false} ChainSplit(text: string, ms: seq<Match>, cursor: nat, i: nat)
    requires Chain(text, ms, cursor) && i < |ms|
    ensures var from := if i == 0 then cursor else ms[i - 1].end;
            from <= ms[i].start < ms[i].end <= |text| && Chain(text, ms[i..], from) && Chain(text, ms[i + 1..], ms[i].end)
    ensures var from := if i == 0 then cursor else ms[i - 1].end;
            Spliced(text, ms[i..], from)
            == text[from..ms[i].start] + ms[i].placeholder + Spliced(text, ms[i + 1..], ms[i].end)
  {
    if i == 0 {
      assert ms[0..] == ms;
    } else {
      ChainSplit(text, ms[1..], ms[0].end, i - 1);
      assert ms[1..][i - 1..] == ms[i..] && ms[1..][i..] == ms[i + 1..];
    }
  }

  /** How much longer the text has grown in front of match `i`. */
  function Shift(ms: seq<Match>, i: nat): int
    requires i <= |ms|
  {
    if i == 0 then 0
    else |ms[0].placeholder| - |ms[0].value| + Shift(ms[1..], i - 1)
  }

  /** Where the text in front of match `i` begins that no match covers. */
  function GapStart(ms: seq<Match>, cursor: nat, i: nat): nat
    requires i <= |ms|
  {
    if i == 0 then cursor else ms[i - 1].end
  }

  lemma ChainTail(text: string, ms: seq<Match>, cursor: nat)
    requires Chain(text, ms, cursor) && ms != []
    ensures cursor <= ms[0].start < ms[0].end <= |text| && Chain(text, ms[1..], ms[0].end)
    ensures |ms[0].value| == ms[0].end - ms[0].start
    ensures Spliced(text, ms, cursor)
         == text[cursor..ms[0].start] + ms[0].placeholder + Spliced(text, ms[1..], ms[0].end)
  {
  }

  /** The redacted text is as long as the shifts say. */
  lemma {:induction false} SplicedLength(text: string, ms: seq<Match>, cursor: nat)
    requires Chain(text, ms, cursor)
    ensures cursor <= |text| && |Spliced(text, ms, cursor)| == |text| - cursor + Shift(ms, |ms|)
  {
    if ms != [] {
      ChainTail(text, ms, cursor);
      SplicedLength(text, ms[1..], ms[0].end);
    }
  }

  /** `part` stands in `s` at `at`. */
  predicate Stands(s: string, part: string, at: int) {
    0 <= at && at + |part| <= |s| && s[at..at + |part|] == part
  }

  lemma StandsLater(front: string, s: string, part: string, at: int)
    requires Stands(s, part, at)
    ensures Stands(front + s, part, |front| + at)
  {
  }

  /** Every placeholder stands where its match stood, shifted, and behind the text that was in front of the match. */
  lemma {:induction false} SplicedStands(text: string, ms: seq<Match>, cursor: nat, i: nat)
    requires Chain(text, ms, cursor) && i < |ms|
    ensures GapStart(ms, cursor, i) <= ms[i].start <= |text|
    ensures var s, at := Spliced(text, ms, cursor), ms[i].start - cursor + Shift(ms, i);
            && Stands(s, ms[i].placeholder, at)
            && Stands(s, text[GapStart(ms, cursor, i)..ms[i].start], at - (ms[i].start - GapStart(ms, cursor, i)))
  {
    hide *;
    ChainTail(text, ms, cursor);
    ShiftStep(ms, i);
    GapStep(ms, cursor, i);
    var gap, p, rest := text[cursor..ms[0].start], ms[0].placeholder, Spliced(text, ms[1..], ms[0].end);
    if i == 0 {
      BothStand(gap, p, rest);
    } else {
      SplicedStands(text, ms[1..], ms[0].end, i - 1);
      var at := ms[i].start - ms[0].end + Shift(ms[1..], i - 1);
      StandsLater(gap + p, rest, ms[i].placeholder, at);
      var before := text[GapStart(ms, cursor, i)..ms[i].start];
      StandsLater(gap + p, rest, before, at - |before|);
    }
  }

  lemma BothStand(gap: string, p: string, rest: string)
    ensures Stands(gap + p + rest, p, |gap|) && Stands(gap + p + rest, gap, 0)
  {
  }

  lemma GapStep(ms: seq<Match>, cursor: nat, i: nat)
    requires i <= |ms|
    ensures i == 0 ==> GapStart(ms, cursor, i) == cursor
    ensures i > 0 ==> GapStart(ms, cursor, i) == GapStart(ms[1..], ms[0].end, i - 1)
  {
  }

  lemma ShiftStep(ms: seq<Match>, i: nat)
    requires i <= |ms|
    ensures i == 0 ==> Shift(ms, i) == 0
    ensures i > 0 ==> Shift(ms, i) == |ms[0].placeholder| - |ms[0].value| + Shift(ms[1..], i - 1)
  {
  }

  lemma SpliceOne(out: seq<string>, a: string, b: string, rest: string)
    ensures Join(out + [a] + [b]) + rest == Join(out) + (a + b + rest)
  {
    assert (out + [a] + [b])[..|out| + 1] == out + [a];
    assert (out + [a])[..|out|] == out;
  }

  /** The loop after its first `i` matches. */
  ghost predicate Splicing(text: string, ms: seq<Match>, i: nat, cursor: nat, out: seq<string>, mapping: Mapping)
    requires Chain(text, ms, 0) && i <= |ms|
  {
    && cursor == (if i == 0 then 0 else ms[i - 1].end)
    && Chain(text, ms[i..], cursor)
    && Join(out) + Spliced(text, ms[i..], cursor) == Spliced(text, ms, 0)
    && mapping == MappingOf(ms[..i])
  }

  lemma SplicingStarts(text: string, ms: seq<Match>)
    requires Chain(text, ms, 0)
    ensures Splicing(text, ms, 0, 0, [], [])
  {
    assert ms[0..] == ms && ms[..0] == [];
  }

  lemma SplicingStep(text: string, ms: seq<Match>, i: nat, cursor: nat, out: seq<string>, mapping: Mapping)
    requires Chain(text, ms, 0) && i < |ms| && Splicing(text, ms, i, cursor, out, mapping)
    ensures cursor <= ms[i].start <= |text|
    ensures Splicing(text, ms, i + 1, ms[i].end, out + [text[cursor..ms[i].start]] + [ms[i].placeholder],
                     Put(mapping, ms[i].placeholder, ms[i].value))
  {
    ChainSplit(text, ms, 0, i);
    SpliceOne(out, text[cursor..ms[i].start], ms[i].placeholder, Spliced(text, ms[i + 1..], ms[i].end));
    assert ms[..i + 1][..i] == ms[..i];
    hide Chain, Spliced, Join, Put;
  }

  lemma SplicingEnds(text: string, ms: seq<Match>, cursor: nat, out: seq<string>, mapping: Mapping)
    requires Chain(text, ms, 0) && Splicing(text, ms, |ms|, cursor, out, mapping)
    ensures cursor <= |text| && Join(out + [text[cursor..]]) == Spliced(text, ms, 0) && mapping == MappingOf(ms)
  {
    assert ms[..|ms|] == ms && ms[|ms|..] == [];
    assert (out + [text[cursor..]])[..|out|] == out;
  }

  lemma RedactedIs(text: string, reserved: seq<seq<Span>>, patterns: seq<Pattern>, accept: Accept)
    requires ValidScan(text, patterns)
    ensures var ms := Detected(text, reserved, patterns, accept);
            && Chain(text, ms, 0) && (ms == [] ==> Spliced(text, ms, 0) == text && MappingOf(ms) == [])
            && Redacted(text, reserved, patterns, accept) == RedactionResult(Spliced(text, ms, 0), ms, MappingOf(ms))
  {
    DetectedChain(text, reserved, patterns, accept);
    hide Detected;
  }

  /**
   * The redacted text, read without the splicing: each placeholder where its match was, moved by what the ones
   * before it added, with the unmatched text between them and behind the last one unchanged.
   */
  lemma RedactedStands(text: string, reserved: seq<seq<Span>>, patterns: seq<Pattern>, accept: Accept)
    requires ValidScan(text, patterns)
    ensures var r := Redacted(text, reserved, patterns, accept); var ms, n := r.matches, |r.matches|;
            && ms == Detected(text, reserved, patterns, accept)
            && |r.text| == |text| + Shift(ms, n)
            && (forall i :: 0 <= i < n ==>
                  && GapStart(ms, 0, i) <= ms[i].start <= |text|
                  && Stands(r.text, ms[i].placeholder, ms[i].start + Shift(ms, i))
                  && Stands(r.text, text[GapStart(ms, 0, i)..ms[i].start], GapStart(ms, 0, i) + Shift(ms, i)))
            && GapStart(ms, 0, n) <= |text| && Stands(r.text, text[GapStart(ms, 0, n)..], GapStart(ms, 0, n) + Shift(ms, n))
  {
    hide *;
    RedactedIs(text, reserved, patterns, accept);
    var ms := Detected(text, reserved, patterns, accept);
    SplicedLength(text, ms, 0);
    forall i | 0 <= i < |ms|
      ensures var s := Spliced(text, ms, 0);
              && GapStart(ms, 0, i) <= ms[i].start <= |text|
              && Stands(s, ms[i].placeholder, ms[i].start + Shift(ms, i))
              && Stands(s, text[GapStart(ms, 0, i)..ms[i].start], GapStart(ms, 0, i) + Shift(ms, i))
    {
      SplicedStands(text, ms, 0, i);
    }
    SplicedTail(text, ms, 0);
  }

  lemma {:induction false} SplicedTail(text: string, ms: seq<Match>, cursor: nat)
    requires Chain(text, ms, cursor)
    ensures GapStart(ms, cursor, |ms|) <= |text|
    ensures Stands(Spliced(text, ms, cursor), text[GapStart(ms, cursor, |ms|)..],
                   GapStart(ms, cursor, |ms|) - cursor + Shift(ms, |ms|))
  {
    if ms == [] {
      assert Spliced(text, ms, cursor) == text[cursor..];
    } else {
      ChainTail(text, ms, cursor);
      SplicedTail(text, ms[1..], ms[0].end);
      assert GapStart(ms, cursor, |ms|) == GapStart(ms[1..], ms[0].end, |ms| - 1);
      var rest, end := Spliced(text, ms[1..], ms[0].end), GapStart(ms, cursor, |ms|);
      ShiftStep(ms, |ms|);
      hide *;
      var at := end - ms[0].end + Shift(ms[1..], |ms| - 1);
      StandsLater(text[cursor..ms[0].start] + ms[0].placeholder, rest, text[end..], at);
    }
  }

  /** The source's splicing loop over `out`, `cursor` and `mapping`, with its early return. */
  method Redact(text: string, reserved: seq<seq<Span>>, patterns: seq<Pattern>, accept: Accept)
    returns (r: RedactionResult)
    requires ValidScan(text, patterns)
    ensures r == Redacted(text, reserved, patterns, accept)
  {
    hide *;
    RedactedIs(text, reserved, patterns, accept);
    var matches := Detect(text, reserved, patterns, accept);
    if matches == [] {
      return RedactionResult(text, [], []);
    }
    var out: seq<string> := [];
    var cursor: nat := 0;
    var mapping: Mapping := [];
    SplicingStarts(text, matches);
    for i := 0 to |matches|
      invariant Splicing(text, matches, i, cursor, out, mapping)
    {
      var m := matches[i];
      SplicingStep(text, matches, i, cursor, out, mapping);
      out := out + [text[cursor..m.start]];
      out := out + [m.placeholder];
      mapping := Put(mapping, m.placeholder, m.value);
      cursor := m.end;
    }
    SplicingEnds(text, matches, cursor, out, mapping);
    out := out + [text[cursor..]];
    return RedactionResult(Join(out), matches, mapping);
  }

  predicate Keyed(mapping: Mapping) {
    forall i :: 0 <= i < |mapping| ==> mapping[i].0 != ""
  }

  function RestoreAll(text: string, mapping: Mapping): string
    requires Keyed(mapping)
    decreases |mapping|
  {
    if mapping == [] then text
    else RestoreAll(ReplaceAll(text, mapping[0].0, mapping[0].1), mapping[1..])
  }

  /** `RedactionResult.restore`: one `str.replace` per entry, in mapping order. */
  method Restore(mapping: Mapping, text: string) returns (out: string)
    requires Keyed(mapping)
    ensures out == RestoreAll(text, mapping)
  {
    out := text;
    for i := 0 to |mapping|
      invariant RestoreAll(out, mapping[i..]) == RestoreAll(text, mapping)
    {
      assert mapping[i..][1..] == mapping[i + 1..];
      out := ReplaceAll(out, mapping[i].0, mapping[i].1);
    }
  }

  // ----- Placeholders cannot straddle ------------------------------------------------------------

  /** Brackets at both ends and nowhere else. */
  predicate Token(p: string) {
    && |p| >= 2 && p[0] == '[' && p[|p| - 1] == ']'
    && (forall i :: 1 <= i < |p| ==> p[i] != '[')
    && (forall i :: 0 <= i < |p| - 1 ==> p[i] != ']')
  }

  lemma PlaceholderIsToken(kind: string, n: nat)
    requires BracketFree(kind)
    ensures Token(Placeholder(kind, n))
  {
    var p, inner := Placeholder(kind, n), kind + "_" + Decimal(n);
    forall i | 1 <= i < |p| - 1
      ensures p[i] != '[' && p[i] != ']'
    {
      assert p[i] == inner[i - 1];
      assert i - 1 > |kind| ==> IsDigit(Decimal(n)[i - 2 - |kind|]);
    }
  }

  lemma TokenAt(s: string, a: nat, b: nat)
    requires a <= b <= |s| && Token(s[a..b])
    ensures a + 2 <= b && s[a] == '[' && s[b - 1] == ']'
    ensures forall j :: a < j < b ==> s[j] != '['
    ensures forall j :: a <= j < b - 1 ==> s[j] != ']'
  {
    var p := s[a..b];
    assert forall j :: a <= j < b ==> s[j] == p[j - a];
  }

  /** Two tokens that overlap in a string are the same slice of it. */
  lemma OverlappingTokens(s: string, a: nat, b: nat, i: nat, n: nat)
    requires a <= b <= |s| && i <= n <= |s| && Token(s[a..b]) && Token(s[i..n])
    requires i < b && a < n
    ensures i == a && n == b
  {
    TokenAt(s, a, b);
    TokenAt(s, i, n);
  }

  /** An occurrence of a token next to another token lies beside it or is exactly it. */
  lemma TokenNeverStraddles(x: string, q: string, y: string, p: string, i: nat)
    requires Token(p) && Token(q) && OccursAt(x + q + y, p, i)
    ensures || OccursAt(x, p, i)
            || (i >= |x| + |q| && OccursAt(y, p, i - |x| - |q|))
            || (i == |x| && p == q)
  {
    var s, a, b, n := x + q + y, |x|, |x| + |q|, i + |p|;
    assert s[i..n] == p && |p| >= 2 && |q| >= 2;
    hide Token;
    SlicesOfThree(x, q, y, i, n);
    if i < b && a < n {
      OverlappingTokens(s, a, b, i, n);
    }
  }

  /** A slice of `x + q + y` that keeps clear of `q` lies in `x` or in `y`. */
  lemma SlicesOfThree(x: string, q: string, y: string, i: nat, n: nat)
    requires i <= n <= |x + q + y|
    ensures (x + q + y)[|x|..|x| + |q|] == q
    ensures n <= |x| ==> x[i..n] == (x + q + y)[i..n]
    ensures i >= |x| + |q| ==> y[i - |x| - |q|..n - |x| - |q|] == (x + q + y)[i..n]
  {
  }

  lemma TokenPrefix(x: string, q: string, y: string, p: string)
    requires Token(p) && Token(q) && x != "" && p <= x + q + y
    ensures p <= x
  {
    assert OccursAt(x + q + y, p, 0);
    TokenNeverStraddles(x, q, y, p, 0);
  }

  lemma ReplaceAtToken(q: string, y: string, p: string, v: string)
    requires Token(p) && Token(q)
    ensures ReplaceAll(q + y, p, v) == (if p == q then v else q) + ReplaceAll(y, p, v)
    ensures Rewrites(q + y, p) == (if p == q then 1 else 0) + Rewrites(y, p)
  {
    hide ReplaceAll, Rewrites;
    if p == q {
      ReplaceHead(y, p, v);
    } else {
      assert "" + q + y == q + y;
      forall i | 0 <= i < |q|
        ensures !OccursAt(q + y, p, i)
      {
        if OccursAt(q + y, p, i) {
          TokenNeverStraddles("", q, y, p, i);
        }
      }
      ReplaceSkips(q, y, p, v);
    }
  }

  lemma ReplaceAtNothing(p: string, v: string)
    requires p != ""
    ensures ReplaceAll("", p, v) == "" && Rewrites("", p) == 0
  {
  }

  /** What replacing `p` makes of the token `q`. */
  function Kept(q: string, p: string, v: string): string {
    if p == q then v else q
  }

  lemma ReplaceAroundNothing(q: string, y: string, p: string, v: string)
    requires Token(p) && Token(q)
    ensures ReplaceAll("" + q + y, p, v) == ReplaceAll("", p, v) + Kept(q, p, v) + ReplaceAll(y, p, v)
    ensures Rewrites("" + q + y, p) == Rewrites("", p) + (if p == q then 1 else 0) + Rewrites(y, p)
  {
    assert p != "" && "" + q + y == q + y;
    assert Kept(q, p, v) == if p == q then v else q;
    hide *;
    ReplaceAtNothing(p, v);
    ReplaceAtToken(q, y, p, v);
    assert "" + Kept(q, p, v) == Kept(q, p, v);
  }

  /** Replacement works on the two sides of a token separately. */
  lemma {:induction false} ReplaceAround(x: string, q: string, y: string, p: string, v: string)
    requires Token(p) && Token(q)
    ensures ReplaceAll(x + q + y, p, v) == ReplaceAll(x, p, v) + Kept(q, p, v) + ReplaceAll(y, p, v)
    ensures Rewrites(x + q + y, p) == Rewrites(x, p) + (if p == q then 1 else 0) + Rewrites(y, p)
    decreases |x|
  {
    assert p != "";
    hide *;
    if x == "" {
      ReplaceAroundNothing(q, y, p, v);
    } else {
      Associates(x, q, y);
      if p <= x + q + y { TokenPrefix(x, q, y, p); }
      var head, rest, one := ReplaceStarts(x, q + y, p, v);
      Associates(rest, q, y);
      ReplaceAround(rest, q, y, p, v);
      Regroup(head, ReplaceAll(rest, p, v), Kept(q, p, v), ReplaceAll(y, p, v));
    }
  }

  lemma Associates(x: string, q: string, y: string)
    ensures x + (q + y) == x + q + y
  {
  }

  /** The first step of a replacement sees only the text in front, unless the pattern reaches behind it. */
  lemma ReplaceStarts(x: string, behind: string, p: string, v: string) returns (head: string, rest: string, one: nat)
    requires p != "" && x != "" && (p <= x + behind ==> p <= x)
    ensures |rest| < |x|
    ensures ReplaceAll(x, p, v) == head + ReplaceAll(rest, p, v) && Rewrites(x, p) == one + Rewrites(rest, p)
    ensures ReplaceAll(x + behind, p, v) == head + ReplaceAll(rest + behind, p, v)
    ensures Rewrites(x + behind, p) == one + Rewrites(rest + behind, p)
  {
    hide *;
    if p <= x {
      head, rest, one := v, x[|p|..], 1;
      assert x == p + rest && x + behind == p + (rest + behind);
      ReplaceHead(rest, p, v);
      ReplaceHead(rest + behind, p, v);
    } else {
      head, rest, one := [x[0]], x[1..], 0;
      assert (x + behind)[1..] == rest + behind && x[0] == (x + behind)[0];
      ShortText(x, p, v);
      ShortText(x + behind, p, v);
    }
  }

  lemma Regroup(a: string, b: string, c: string, d: string)
    ensures (a + b) + c + d == a + (b + c + d)
  {
  }

  /** The recursion of `ReplaceAll` below the length of the pattern. */
  lemma ShortText(s: string, p: string, v: string)
    requires p != "" && s != "" && !(p <= s)
    ensures ReplaceAll(s, p, v) == [s[0]] + ReplaceAll(s[1..], p, v)
    ensures Rewrites(s, p) == Rewrites(s[1..], p)
  {
  }

  lemma {:induction false} RewritesNone(s: string, p: string)
    requires p != ""
    ensures Rewrites(s, p) == 0 <==> !Contains(s, p)
    decreases |s|
  {
    if !Contains(s, p) {
      ReplaceNothing(s, p, "");
    } else {
      var i :| OccursAt(s, p, i);
      if !(p <= s) {
        assert s[1..|s|] == s[1..];
        OccursInSlice(s, p, 1, |s|, i - 1);
        RewritesNone(s[1..], p);
      }
    }
  }
}
