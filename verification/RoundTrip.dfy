/** `restore` undoes `redact`: when it does, and exactly when it does. */
module RoundTrip {
  import opened Strings
  import opened Detection
  import opened Redaction

  /** Matches whose placeholders are distinct tokens. */
  ghost predicate Labelled(ms: seq<Match>) {
    && (forall i :: 0 <= i < |ms| ==> Token(ms[i].placeholder))
    && (forall i, j :: 0 <= i < j < |ms| ==> ms[i].placeholder != ms[j].placeholder)
  }

  function Pairs(ms: seq<Match>): (r: Mapping)
    ensures |r| == |ms| && forall i :: 0 <= i < |ms| ==> r[i] == (ms[i].placeholder, ms[i].value)
  {
    if ms == [] then [] else [(ms[0].placeholder, ms[0].value)] + Pairs(ms[1..])
  }

  lemma {:induction false} PutNew(mapping: Mapping, key: string, value: string)
    requires forall i :: 0 <= i < |mapping| ==> mapping[i].0 != key
    ensures Put(mapping, key, value) == mapping + [(key, value)]
  {
    if mapping != [] {
      PutNew(mapping[1..], key, value);
    }
  }

  lemma LabelledInit(ms: seq<Match>)
    requires Labelled(ms) && ms != []
    ensures var init, last := ms[..|ms| - 1], ms[|ms| - 1];
            Labelled(init) && forall i :: 0 <= i < |init| ==> Pairs(init)[i].0 != last.placeholder
  {
  }

  lemma {:induction false} PairsSnoc(ms: seq<Match>, m: Match)
    ensures Pairs(ms + [m]) == Pairs(ms) + [(m.placeholder, m.value)]
  {
  }

  /** With distinct placeholders the dict lists the matches in reading order. */
  lemma {:induction false} MappingIsPairs(ms: seq<Match>)
    requires Labelled(ms)
    ensures MappingOf(ms) == Pairs(ms)
  {
    if ms != [] {
      var init, last := ms[..|ms| - 1], ms[|ms| - 1];
      LabelledInit(ms);
      MappingIsPairs(init);
      PutNew(Pairs(init), last.placeholder, last.value);
      PairsSnoc(init, last);
      assert init + [last] == ms;
    }
  }

  /** `p` occurs in none of the stretches of text between the matches, from `cursor` on. */
  ghost predicate GapsFree(text: string, ms: seq<Match>, cursor: nat, p: string)
    requires Chain(text, ms, cursor)
  {
    if ms == [] then !Contains(text[cursor..], p)
    else !Contains(text[cursor..ms[0].start], p) && GapsFree(text, ms[1..], ms[0].end, p)
  }

  /**
   * For every match, its placeholder occurs neither in the text before the match nor in a gap after it.
   * Only the text and its matches decide this; neither replacement nor splicing is involved.
   */
  ghost predicate Unmistakable(text: string, ms: seq<Match>, cursor: nat)
    requires Chain(text, ms, cursor)
  {
    if ms == [] then true
    else
      && !Contains(text[..ms[0].start], ms[0].placeholder)
      && GapsFree(text, ms[1..], ms[0].end, ms[0].placeholder)
      && Unmistakable(text, ms[1..], ms[0].end)
  }

  /** Other placeholders never create an occurrence of `p`: only the gaps matter. */
  lemma {:induction false} SplicedFree(text: string, ms: seq<Match>, cursor: nat, p: string)
    requires Chain(text, ms, cursor) && Token(p)
    requires forall i :: 0 <= i < |ms| ==> Token(ms[i].placeholder) && ms[i].placeholder != p
    ensures GapsFree(text, ms, cursor, p) <==> Rewrites(Spliced(text, ms, cursor), p) == 0
  {
    if ms == [] {
      RewritesNone(text[cursor..], p);
    } else {
      var gap, rest := text[cursor..ms[0].start], Spliced(text, ms[1..], ms[0].end);
      SplicedFree(text, ms[1..], ms[0].end, p);
      ReplaceAround(gap, ms[0].placeholder, rest, p, "");
      RewritesNone(gap, p);
    }
  }

  /** The text with every match before `cursor` restored and every later one still a placeholder. */
  function Halfway(text: string, ms: seq<Match>, cursor: nat): string
    requires Chain(text, ms, cursor)
  {
    text[..cursor] + Spliced(text, ms, cursor)
  }

  /** Halfway texts around the first match: its placeholder before, its value after. */
  lemma HalfwaySplits(text: string, ms: seq<Match>, cursor: nat)
    requires Chain(text, ms, cursor) && ms != []
    ensures ms[0].start <= |text| && Chain(text, ms[1..], ms[0].end)
    ensures var before, rest := text[..ms[0].start], Spliced(text, ms[1..], ms[0].end);
            && Halfway(text, ms, cursor) == before + ms[0].placeholder + rest
            && Halfway(text, ms[1..], ms[0].end) == before + ms[0].value + rest
  {
    var m := ms[0];
    var gap, rest := text[cursor..m.start], Spliced(text, ms[1..], m.end);
    assert Spliced(text, ms, cursor) == gap + m.placeholder + rest;
    hide Chain, Spliced;
    SlicesJoin(text, cursor, m.start, m.placeholder, rest);
    SlicesJoin(text, m.start, m.end, "", "");
    assert text[..m.start] + m.value == text[..m.end];
  }

  lemma SlicesJoin(text: string, a: nat, b: nat, p: string, rest: string)
    requires a <= b <= |text|
    ensures text[..a] + text[a..b] == text[..b]
    ensures text[..a] + (text[a..b] + p + rest) == text[..b] + p + rest
  {
  }

  /** One `str.replace` of `restore`: how often it rewrites, and that one rewrite is the right one. */
  lemma RestoreStep(text: string, ms: seq<Match>, cursor: nat)
    requires Chain(text, ms, cursor) && ms != [] && Labelled(ms)
    ensures var p := ms[0].placeholder; var t := Halfway(text, ms, cursor);
            && Rewrites(t, p) >= 1
            && (Rewrites(t, p) == 1 <==>
                  !Contains(text[..ms[0].start], p) && GapsFree(text, ms[1..], ms[0].end, p))
            && (Rewrites(t, p) == 1 ==> ReplaceAll(t, p, ms[0].value) == Halfway(text, ms[1..], ms[0].end))
  {
    HalfwaySplits(text, ms, cursor);
    var p, v := ms[0].placeholder, ms[0].value;
    var before, rest := text[..ms[0].start], Spliced(text, ms[1..], ms[0].end);
    SplicedFree(text, ms[1..], ms[0].end, p);
    ReplaceBetween(before, p, rest, v);
  }

  lemma ReplaceBetween(before: string, p: string, rest: string, v: string)
    requires Token(p)
    ensures Rewrites(before + p + rest, p) == Rewrites(before, p) + 1 + Rewrites(rest, p)
    ensures Rewrites(before, p) == 0 <==> !Contains(before, p)
    ensures Rewrites(before, p) == 0 && Rewrites(rest, p) == 0
            ==> ReplaceAll(before + p + rest, p, v) == before + v + rest
  {
    ReplaceAround(before, p, rest, p, v);
    RewritesNone(before, p);
    RewritesNone(rest, p);
    if Rewrites(before, p) == 0 && Rewrites(rest, p) == 0 {
      ReplaceNothing(before, p, v);
      ReplaceNothing(rest, p, v);
    }
  }

  lemma {:induction false} RestoreFrom(text: string, ms: seq<Match>, cursor: nat)
    requires Chain(text, ms, cursor) && Labelled(ms) && Unmistakable(text, ms, cursor)
    ensures RestoreAll(Halfway(text, ms, cursor), Pairs(ms)) == text
    decreases |ms|
  {
    if ms == [] {
      assert text[..cursor] + text[cursor..] == text;
    } else {
      var rest := ms[1..];
      assert !Contains(text[..ms[0].start], ms[0].placeholder) && GapsFree(text, rest, ms[0].end, ms[0].placeholder);
      assert Unmistakable(text, rest, ms[0].end) && Labelled(rest);
      hide *;
      HalfwaySplits(text, ms, cursor);
      RestoreStep(text, ms, cursor);
      RestoreFrom(text, rest, ms[0].end);
      RestoreAllStep(Halfway(text, ms, cursor), ms);
    }
  }

  lemma RestoreAllStep(t: string, ms: seq<Match>)
    requires ms != [] && Labelled(ms)
    ensures Keyed(Pairs(ms)) && Keyed(Pairs(ms[1..]))
    ensures RestoreAll(t, Pairs(ms)) == RestoreAll(ReplaceAll(t, ms[0].placeholder, ms[0].value), Pairs(ms[1..]))
  {
    assert Pairs(ms)[1..] == Pairs(ms[1..]);
    hide ReplaceAll;
  }

  // ----- The converse: count the opening brackets -------------------------------------------------

  function Opens(s: string): nat {
    if s == "" then 0 else (if s[0] == '[' then 1 else 0) + Opens(s[1..])
  }

  lemma {:induction false} OpensAppend(a: string, b: string)
    ensures Opens(a + b) == Opens(a) + Opens(b)
  {
    if a == "" {
      assert a + b == b;
    } else {
      assert (a + b)[1..] == a[1..] + b;
      OpensAppend(a[1..], b);
    }
  }

  lemma {:induction false} OpensNone(s: string)
    requires forall i :: 0 <= i < |s| ==> s[i] != '['
    ensures Opens(s) == 0
  {
    if s != "" {
      OpensNone(s[1..]);
    }
  }

  lemma TokenOpensOnce(p: string)
    requires Token(p)
    ensures Opens(p) == 1
  {
    OpensNone(p[1..]);
  }

  /** Each rewrite of a token by a bracket-free value removes one opening bracket. */
  lemma {:induction false} ReplaceClosesBrackets(s: string, p: string, v: string)
    requires Token(p) && BracketFree(v)
    ensures Opens(ReplaceAll(s, p, v)) + Rewrites(s, p) == Opens(s)
    decreases |s|
  {
    if |s| >= |p| {
      if p <= s {
        var rest := s[|p|..];
        assert s == p + rest;
        ReplaceClosesBrackets(rest, p, v);
        OpensAppend(v, ReplaceAll(rest, p, v));
        OpensAppend(p, rest);
        OpensNone(v);
        TokenOpensOnce(p);
      } else {
        ReplaceClosesBrackets(s[1..], p, v);
        OpensAppend([s[0]], ReplaceAll(s[1..], p, v));
      }
    }
  }

  /** Every placeholder of `ms` stands somewhere in `t`. */
  ghost predicate AllPresent(t: string, ms: seq<Match>) {
    forall i :: 0 <= i < |ms| ==> Contains(t, ms[i].placeholder)
  }

  lemma ReplaceKeepsOtherToken(t: string, p: string, v: string, q: string)
    requires Token(p) && Token(q) && p != q && Contains(t, q)
    ensures Contains(ReplaceAll(t, p, v), q)
  {
    var i :| OccursAt(t, q, i);
    var x, y := t[..i], t[i + |q|..];
    assert t == x + q + y;
    ReplaceAround(x, q, y, p, v);
    var x' := ReplaceAll(x, p, v);
    assert ReplaceAll(t, p, v)[|x'|..|x'| + |q|] == q;
    assert OccursAt(ReplaceAll(t, p, v), q, |x'|);
  }

  /** Restoring n present placeholders removes at least n opening brackets. */
  lemma {:induction false} RestoreClosesBrackets(t: string, ms: seq<Match>)
    requires Labelled(ms) && AllPresent(t, ms)
    requires forall i :: 0 <= i < |ms| ==> BracketFree(ms[i].value)
    ensures Opens(RestoreAll(t, Pairs(ms))) + |ms| <= Opens(t)
    decreases |ms|
  {
    if ms != [] {
      var p, v := ms[0].placeholder, ms[0].value;
      var t' := ReplaceAll(t, p, v);
      ReplaceClosesBrackets(t, p, v);
      RewritesNone(t, p);
      forall i | 0 <= i < |ms[1..]|
        ensures Contains(t', ms[1..][i].placeholder)
      {
        ReplaceKeepsOtherToken(t, p, v, ms[i + 1].placeholder);
      }
      RestoreClosesBrackets(t', ms[1..]);
      assert Pairs(ms)[1..] == Pairs(ms[1..]);
    }
  }

  lemma {:induction false} HalfwayOpens(text: string, ms: seq<Match>, cursor: nat)
    requires Chain(text, ms, cursor) && Labelled(ms)
    requires forall i :: 0 <= i < |ms| ==> BracketFree(ms[i].value)
    ensures Opens(Halfway(text, ms, cursor)) == Opens(text) + |ms|
    decreases |ms|
  {
    if ms == [] {
      assert text[..cursor] + text[cursor..] == text;
    } else {
      HalfwaySplits(text, ms, cursor);
      HalfwayOpens(text, ms[1..], ms[0].end);
      SwapOpens(text[..ms[0].start], ms[0].placeholder, ms[0].value, Spliced(text, ms[1..], ms[0].end));
    }
  }

  lemma SwapOpens(before: string, p: string, v: string, rest: string)
    requires Token(p) && BracketFree(v)
    ensures Opens(before + p + rest) == Opens(before + v + rest) + 1
  {
    OpensAppend(before + p, rest);
    OpensAppend(before, p);
    OpensAppend(before + v, rest);
    OpensAppend(before, v);
    OpensNone(v);
    TokenOpensOnce(p);
  }

  lemma ContainsAround(a: string, b: string, c: string, p: string)
    requires Contains(b, p)
    ensures Contains(a + b + c, p)
  {
    var s := a + b + c;
    assert s[|a|..|a| + |b|] == b;
    ContainsInSlice(s, p, |a|, |a| + |b|);
  }

  lemma {:induction false} SplicedPresent(text: string, ms: seq<Match>, cursor: nat, i: nat)
    requires Chain(text, ms, cursor) && i < |ms|
    ensures Contains(Spliced(text, ms, cursor), ms[i].placeholder)
  {
    var gap, p, rest := text[cursor..ms[0].start], ms[0].placeholder, Spliced(text, ms[1..], ms[0].end);
    if i == 0 {
      assert OccursAt(p, p, 0);
      ContainsAround(gap, p, rest, p);
    } else {
      SplicedPresent(text, ms[1..], ms[0].end, i - 1);
      ContainsAround(gap + p, rest, "", ms[i].placeholder);
      assert gap + p + rest + "" == gap + p + rest;
    }
  }

  lemma HalfwayPresent(text: string, ms: seq<Match>, cursor: nat)
    requires Chain(text, ms, cursor)
    ensures AllPresent(Halfway(text, ms, cursor), ms)
  {
    forall i | 0 <= i < |ms|
      ensures Contains(Halfway(text, ms, cursor), ms[i].placeholder)
    {
      SplicedPresent(text, ms, cursor, i);
      ContainsAround(text[..cursor], Spliced(text, ms, cursor), "", ms[i].placeholder);
      assert Halfway(text, ms, cursor) + "" == Halfway(text, ms, cursor);
    }
  }

  /** If restoring gives the text back, no placeholder could be mistaken. */
  lemma {:induction false} RestoreOnlyIf(text: string, ms: seq<Match>, cursor: nat)
    requires Chain(text, ms, cursor) && Labelled(ms)
    requires forall i :: 0 <= i < |ms| ==> BracketFree(ms[i].value)
    requires RestoreAll(Halfway(text, ms, cursor), Pairs(ms)) == text
    ensures Unmistakable(text, ms, cursor)
    decreases |ms|
  {
    if ms != [] {
      var p, v, t := ms[0].placeholder, ms[0].value, Halfway(text, ms, cursor);
      var t', later := ReplaceAll(t, p, v), ms[1..];
      assert Pairs(ms)[1..] == Pairs(later);
      RestoreStep(text, ms, cursor);
      HalfwayOpens(text, ms, cursor);
      HalfwayPresent(text, ms, cursor);
      ReplaceClosesBrackets(t, p, v);
      forall i | 0 <= i < |later|
        ensures Contains(t', later[i].placeholder)
      {
        ReplaceKeepsOtherToken(t, p, v, ms[i + 1].placeholder);
      }
      RestoreClosesBrackets(t', later);
      assert Rewrites(t, p) == 1;
      RestoreOnlyIf(text, later, ms[0].end);
    }
  }

  // ----- The theorems ------------------------------------------------------------------------------

  lemma DetectedLabelled(text: string, reserved: seq<seq<Span>>, patterns: seq<Pattern>, accept: Accept)
    requires ValidScan(text, patterns)
    ensures Labelled(Detected(text, reserved, patterns, accept))
  {
    var ms := Detected(text, reserved, patterns, accept);
    forall i | 0 <= i < |ms|
      ensures Token(ms[i].placeholder)
    {
      PlaceholderOf(text, reserved, patterns, accept, i);
      PlaceholderIsToken(ms[i].kind, NumberOf(ms, i));
    }
    forall i, j | 0 <= i < j < |ms|
      ensures ms[i].placeholder != ms[j].placeholder
    {
      DistinctPlaceholders(text, reserved, patterns, accept, i, j);
    }
  }

  /** The mapping a redaction returns has one entry per match, in reading order. */
  lemma RedactedMapping(text: string, reserved: seq<seq<Span>>, patterns: seq<Pattern>, accept: Accept)
    requires ValidScan(text, patterns)
    ensures var r := Redacted(text, reserved, patterns, accept);
            && r.mapping == Pairs(r.matches) && Keyed(r.mapping)
            && Chain(text, r.matches, 0) && r.text == Halfway(text, r.matches, 0)
  {
    DetectedChain(text, reserved, patterns, accept);
    DetectedLabelled(text, reserved, patterns, accept);
    MappingIsPairs(Detected(text, reserved, patterns, accept));
    assert text[..0] == "";
  }

  lemma {:induction false} AbsentIsUnmistakable(text: string, ms: seq<Match>, cursor: nat)
    requires Chain(text, ms, cursor)
    requires forall i :: 0 <= i < |ms| ==> !Contains(text, ms[i].placeholder)
    ensures Unmistakable(text, ms, cursor)
  {
    if ms != [] {
      AbsentIsUnmistakable(text, ms[1..], ms[0].end);
      AbsentFromGaps(text, ms[1..], ms[0].end, ms[0].placeholder);
      if Contains(text[0..ms[0].start], ms[0].placeholder) {
        ContainsInSlice(text, ms[0].placeholder, 0, ms[0].start);
      }
      assert text[0..ms[0].start] == text[..ms[0].start];
    }
  }

  lemma {:induction false} AbsentFromGaps(text: string, ms: seq<Match>, cursor: nat, p: string)
    requires Chain(text, ms, cursor) && !Contains(text, p)
    ensures GapsFree(text, ms, cursor, p)
  {
    var hi := if ms == [] then |text| else ms[0].start;
    assert ms == [] ==> cursor <= |text|;
    if Contains(text[cursor..hi], p) {
      ContainsInSlice(text, p, cursor, hi);
    }
    if ms != [] {
      AbsentFromGaps(text, ms[1..], ms[0].end, p);
    } else {
      assert text[cursor..hi] == text[cursor..];
    }
  }

  /** Restoring a redaction gives the text back whenever no generated placeholder already stands in it. */
  lemma RestoreUndoesRedact(text: string, reserved: seq<seq<Span>>, patterns: seq<Pattern>, accept: Accept)
    requires ValidScan(text, patterns)
    requires forall m :: m in Detected(text, reserved, patterns, accept) ==> !Contains(text, m.placeholder)
    ensures var r := Redacted(text, reserved, patterns, accept);
            Keyed(r.mapping) && RestoreAll(r.text, r.mapping) == text
  {
    var ms := Detected(text, reserved, patterns, accept);
    RedactedMapping(text, reserved, patterns, accept);
    DetectedLabelled(text, reserved, patterns, accept);
    forall i | 0 <= i < |ms|
      ensures !Contains(text, ms[i].placeholder)
    {
      assert ms[i] in ms;
    }
    AbsentIsUnmistakable(text, ms, 0);
    RestoreFrom(text, ms, 0);
  }

  /** With bracket-free values, as every source pattern yields, the round trip holds exactly for unmistakable texts. */
  lemma RestoreUndoesRedactExactly(text: string, reserved: seq<seq<Span>>, patterns: seq<Pattern>, accept: Accept)
    requires ValidScan(text, patterns)
    requires forall m :: m in Detected(text, reserved, patterns, accept) ==> BracketFree(m.value)
    ensures var r := Redacted(text, reserved, patterns, accept);
            && Keyed(r.mapping) && Chain(text, r.matches, 0)
            && (RestoreAll(r.text, r.mapping) == text <==> Unmistakable(text, r.matches, 0))
  {
    var ms := Detected(text, reserved, patterns, accept);
    RedactedMapping(text, reserved, patterns, accept);
    DetectedLabelled(text, reserved, patterns, accept);
    assert Redacted(text, reserved, patterns, accept).matches == ms;
    hide *;
    assert forall i :: 0 <= i < |ms| ==> ms[i] in ms;
    RestoreExactly(text, ms);
  }

  /** The round trip of any labelled chain of matches. */
  lemma RestoreExactly(text: string, ms: seq<Match>)
    requires Chain(text, ms, 0) && Labelled(ms) && Keyed(Pairs(ms))
    requires forall i :: 0 <= i < |ms| ==> BracketFree(ms[i].value)
    ensures RestoreAll(Halfway(text, ms, 0), Pairs(ms)) == text <==> Unmistakable(text, ms, 0)
  {
    hide *;
    if Unmistakable(text, ms, 0) {
      RestoreFrom(text, ms, 0);
    }
    if RestoreAll(Halfway(text, ms, 0), Pairs(ms)) == text {
      RestoreOnlyIf(text, ms, 0);
    }
  }

  /** One pattern, one hit, everything accepted: the scan finds that hit and numbers it 1. */
  lemma SingleHit(text: string, kind: string, hit: Span, accept: Accept)
    requires BracketFree(kind) && InText(text, hit) && accept(kind, text[hit.start..hit.end])
    ensures var m := Match(kind, Placeholder(kind, 1), hit.start, hit.end, text[hit.start..hit.end]);
            ValidScan(text, [Pattern(kind, [hit])]) && Detected(text, [], [Pattern(kind, [hit])], accept) == [m]
  {
    var patterns := [Pattern(kind, [hit])];
    var m := Match(kind, Placeholder(kind, 1), hit.start, hit.end, text[hit.start..hit.end]);
    SingleHitIsValid(text, kind, hit);
    SingleScan(text, kind, hit, accept, Start([]));
    ConsideredFirst(text, kind, hit, accept);
    SortOfOne(m);
    hide ScanPatterns, Consider, SortByStart, ValidScan, Start;
  }

  lemma SingleHitIsValid(text: string, kind: string, hit: Span)
    requires BracketFree(kind) && InText(text, hit)
    ensures ValidScan(text, [Pattern(kind, [hit])])
  {
  }

  lemma SingleScan(text: string, kind: string, hit: Span, accept: Accept, st: State)
    requires InText(text, hit)
    ensures ScanPatterns(text, accept, [Pattern(kind, [hit])], st) == Consider(text, kind, accept, st, hit)
  {
    assert [Pattern(kind, [hit])][..0] == [] && [hit][..0] == [];
    hide Consider;
    assert ScanHits(text, kind, accept, [], st) == st;
    assert ScanHits(text, kind, accept, [hit], st) == Consider(text, kind, accept, st, hit);
    assert ScanPatterns(text, accept, [], st) == st;
  }

  lemma ConsideredFirst(text: string, kind: string, hit: Span, accept: Accept)
    requires InText(text, hit) && accept(kind, text[hit.start..hit.end])
    ensures Consider(text, kind, accept, Start([]), hit).matches
            == [Match(kind, Placeholder(kind, 1), hit.start, hit.end, text[hit.start..hit.end])]
  {
    hide Placeholder;
  }

  lemma SortOfOne(m: Match)
    ensures SortByStart([m]) == [m]
  {
    assert [m][..0] == [];
  }

  const SPOILED := "[EMAIL_1] a@b.co"

  /** A text that already holds `[EMAIL_1]` in front of its first address is not restored. */
  lemma RestoreCanFail(accept: Accept)
    requires accept("EMAIL", "a@b.co")
    ensures var patterns := [Pattern("EMAIL", [Span(10, 16)])];
            && ValidScan(SPOILED, patterns)
            && (var r := Redacted(SPOILED, [], patterns, accept);
                Keyed(r.mapping) && RestoreAll(r.text, r.mapping) != SPOILED)
  {
    hide *;
    SpoiledHit();
    var patterns := [Pattern("EMAIL", [Span(10, 16)])];
    var ms := [Match("EMAIL", Placeholder("EMAIL", 1), 10, 16, SPOILED[10..16])];
    SingleHit(SPOILED, "EMAIL", Span(10, 16), accept);
    SpoiledIsMistakable();
    RedactedIs(SPOILED, [], patterns, accept);
    assert forall m :: m in ms ==> m == ms[0];
    RestoreUndoesRedactExactly(SPOILED, [], patterns, accept);
  }

  lemma SpoiledHit()
    ensures |SPOILED| == 16 && SPOILED[10..16] == "a@b.co" && InText(SPOILED, Span(10, 16))
    ensures BracketFree("EMAIL") && BracketFree(SPOILED[10..16])
  {
  }

  lemma EmailOne()
    ensures Placeholder("EMAIL", 1) == "[EMAIL_1]"
  {
    assert Decimal(1) == "1";
  }

  lemma SpoiledIsMistakable()
    ensures var ms := [Match("EMAIL", Placeholder("EMAIL", 1), 10, 16, SPOILED[10..16])];
            Chain(SPOILED, ms, 0) && !Unmistakable(SPOILED, ms, 0)
  {
    EmailOne();
    assert |SPOILED| == 16;
    hide Placeholder, Decimal;
    assert SPOILED[..10] == "[EMAIL_1] ";
    assert OccursAt("[EMAIL_1] ", "[EMAIL_1]", 0);
  }
}
