/** `detect`: overlapping PII candidates are resolved by pattern order, then numbered per kind. */
module Detection {
  import opened Strings

  datatype Span = Span(start: nat, end: nat)

  datatype Match = Match(kind: string, placeholder: string, start: nat, end: nat, value: string) {
    function Where(): Span { Span(start, end) }
  }

  /** One entry of the pattern table, with what `finditer` yields for it on the text at hand. */
  datatype Pattern = Pattern(kind: string, hits: seq<Span>)

  /** The second-stage validation `_accept(kind, value)`, left arbitrary. */
  type Accept = (string, string) -> bool

  /** The kinds of the source's table, in priority order. */
  const KINDS: seq<string> :=
    ["EMAIL", "IBAN", "SSN", "NATIONAL_ID", "CREDIT_CARD", "IP_ADDRESS", "PHONE", "ID_NUMBER"]

  function Placeholder(kind: string, n: nat): string {
    "[" + (kind + "_" + Decimal(n)) + "]"
  }

  predicate Overlap(a: Span, b: Span) {
    a.start < b.end && a.end > b.start
  }

  predicate OverlapsAny(s: Span, claimed: seq<Span>) {
    exists i :: 0 <= i < |claimed| && Overlap(s, claimed[i])
  }

  /** Non-empty spans overlap when some character lies in both. */
  lemma OverlapSharesACharacter(a: Span, b: Span)
    requires a.start < a.end && b.start < b.end
    ensures Overlap(a, b) <==> exists p: nat :: Inside(p, a) && Inside(p, b)
  {
    if Overlap(a, b) {
      var p := if a.start < b.start then b.start else a.start;
      assert Inside(p, a) && Inside(p, b);
    }
  }

  predicate Inside(p: nat, s: Span) { s.start <= p < s.end }

  predicate InText(text: string, s: Span) {
    s.start < s.end <= |text|
  }

  /** What `finditer` promises: non-empty spans of the text, left to right, disjoint. */
  predicate ScanOrder(text: string, hits: seq<Span>) {
    && (forall i :: 0 <= i < |hits| ==> InText(text, hits[i]))
    && (forall i, j :: 0 <= i < j < |hits| ==> hits[i].end <= hits[j].start)
  }

  predicate BracketFree(s: string) {
    forall i :: 0 <= i < |s| ==> s[i] != '[' && s[i] != ']'
  }

  /** The scan of a text by a table whose kinds are distinct names without brackets. */
  predicate ValidScan(text: string, patterns: seq<Pattern>) {
    && (forall k :: 0 <= k < |patterns| ==> ScanOrder(text, patterns[k].hits))
    && (forall k :: 0 <= k < |patterns| ==> BracketFree(patterns[k].kind))
    && (forall j, k :: 0 <= j < k < |patterns| ==> patterns[j].kind != patterns[k].kind)
  }

  lemma KindsAreDistinct(j: nat, k: nat)
    requires j < k < |KINDS|
    ensures KINDS[j] != KINDS[k]
  {
    assert KINDS[0][0] == 'E' && KINDS[1][1] == 'B' && KINDS[5][1] == 'P' && KINDS[7][1] == 'D';
    assert KINDS[2][0] == 'S' && KINDS[3][0] == 'N' && KINDS[4][0] == 'C' && KINDS[6][0] == 'P';
    assert KINDS[1][0] == KINDS[5][0] == KINDS[7][0] == 'I';
  }

  lemma KindsAreBracketFree(k: nat)
    requires k < |KINDS|
    ensures BracketFree(KINDS[k])
  {
    assert BracketFree(KINDS[0]) && BracketFree(KINDS[1]) && BracketFree(KINDS[2]) && BracketFree(KINDS[3]);
    assert BracketFree(KINDS[4]) && BracketFree(KINDS[5]) && BracketFree(KINDS[6]) && BracketFree(KINDS[7]);
  }

  /** The source's own table meets what `ValidScan` asks of the kinds. */
  lemma SourceKindsAreValid(text: string, patterns: seq<Pattern>)
    requires |patterns| == |KINDS|
    requires forall k :: 0 <= k < |patterns| ==> patterns[k].kind == KINDS[k] && ScanOrder(text, patterns[k].hits)
    ensures ValidScan(text, patterns)
  {
    hide BracketFree, ScanOrder;
    forall k | 0 <= k < |patterns|
      ensures BracketFree(patterns[k].kind)
    {
      KindsAreBracketFree(k);
    }
    forall j, k | 0 <= j < k < |patterns|
      ensures patterns[j].kind != patterns[k].kind
    {
      KindsAreDistinct(j, k);
    }
  }

  /** The three variables the scan updates. */
  datatype State = State(claimed: seq<Span>, matches: seq<Match>, counters: map<string, nat>)

  function Consider(text: string, kind: string, accept: Accept, st: State, hit: Span): State
    requires InText(text, hit)
  {
    var value := text[hit.start..hit.end];
    if !accept(kind, value) || OverlapsAny(hit, st.claimed) then st
    else
      var n := (if kind in st.counters then st.counters[kind] else 0) + 1;
      State(
        st.claimed + [hit],
        st.matches + [Match(kind, Placeholder(kind, n), hit.start, hit.end, value)],
        st.counters[kind := n])
  }

  function ScanHits(text: string, kind: string, accept: Accept, hits: seq<Span>, st: State): State
    requires ScanOrder(text, hits)
  {
    if hits == [] then st
    else
      var last := |hits| - 1;
      Consider(text, kind, accept, ScanHits(text, kind, accept, hits[..last], st), hits[last])
  }

  function ScanPatterns(text: string, accept: Accept, patterns: seq<Pattern>, st: State): State
    requires forall k :: 0 <= k < |patterns| ==> ScanOrder(text, patterns[k].hits)
  {
    if patterns == [] then st
    else
      var last := |patterns| - 1;
      ScanHits(text, patterns[last].kind, accept, patterns[last].hits, ScanPatterns(text, accept, patterns[..last], st))
  }

  function Flatten(groups: seq<seq<Span>>): seq<Span> {
    if groups == [] then [] else Flatten(groups[..|groups| - 1]) + groups[|groups| - 1]
  }

  lemma {:induction false} FlattenHolds(groups: seq<seq<Span>>, s: Span)
    ensures s in Flatten(groups) <==> exists g :: g in groups && s in g
  {
    if groups != [] {
      var init, last := groups[..|groups| - 1], groups[|groups| - 1];
      FlattenHolds(init, s);
      assert groups == init + [last];
    }
  }

  function Start(reserved: seq<seq<Span>>): State {
    State(Flatten(reserved), [], map[])
  }

  /** Python's stable `sort(key=start)`, by insertion. */
  function Insert(ms: seq<Match>, m: Match): seq<Match> {
    if ms == [] || ms[|ms| - 1].start <= m.start then ms + [m]
    else Insert(ms[..|ms| - 1], m) + [ms[|ms| - 1]]
  }

  function SortByStart(ms: seq<Match>): seq<Match> {
    if ms == [] then [] else Insert(SortByStart(ms[..|ms| - 1]), ms[|ms| - 1])
  }

  /** The result of `detect`. */
  function Detected(text: string, reserved: seq<seq<Span>>, patterns: seq<Pattern>, accept: Accept): seq<Match>
    requires ValidScan(text, patterns)
  {
    SortByStart(ScanPatterns(text, accept, patterns, Start(reserved)).matches)
  }

  lemma FlattenStep(reserved: seq<seq<Span>>, r: nat)
    requires r < |reserved|
    ensures Flatten(reserved[..r + 1]) == Flatten(reserved[..r]) + reserved[r]
  {
    assert reserved[..r + 1][..r] == reserved[..r];
  }

  lemma ScanNone(text: string, kind: string, accept: Accept, hits: seq<Span>, st: State)
    requires ScanOrder(text, hits)
    ensures ScanHits(text, kind, accept, hits[..0], st) == st
  {
  }

  lemma ScanHitsStep(text: string, kind: string, accept: Accept, hits: seq<Span>, i: nat, st: State)
    requires ScanOrder(text, hits) && i < |hits|
    ensures ScanHits(text, kind, accept, hits[..i + 1], st)
            == Consider(text, kind, accept, ScanHits(text, kind, accept, hits[..i], st), hits[i])
  {
    assert hits[..i + 1][..i] == hits[..i];
    hide Consider;
  }

  lemma ScanPatternsStep(text: string, accept: Accept, patterns: seq<Pattern>, k: nat, st: State)
    requires k < |patterns| && forall j :: 0 <= j < |patterns| ==> ScanOrder(text, patterns[j].hits)
    ensures ScanPatterns(text, accept, patterns[..k + 1], st)
            == ScanHits(text, patterns[k].kind, accept, patterns[k].hits, ScanPatterns(text, accept, patterns[..k], st))
  {
    assert patterns[..k + 1][..k] == patterns[..k];
    hide ScanOrder, ScanHits;
  }

  lemma ScanBegins(text: string, accept: Accept, reserved: seq<seq<Span>>, patterns: seq<Pattern>)
    requires ValidScan(text, patterns)
    ensures ScanPatterns(text, accept, patterns[..0], Start(reserved)) == State(Flatten(reserved), [], map[])
    ensures reserved[..|reserved|] == reserved && patterns[..|patterns|] == patterns && Flatten(reserved[..0]) == []
  {
  }

  /** The source's two nested loops over `claimed`, `matches` and `counters`. */
  method Detect(text: string, reserved: seq<seq<Span>>, patterns: seq<Pattern>, accept: Accept)
    returns (matches: seq<Match>)
    requires ValidScan(text, patterns)
    ensures matches == Detected(text, reserved, patterns, accept)
  {
    hide Flatten, Start, Insert, SortByStart, ScanHits, ScanPatterns, Placeholder, OverlapsAny, BracketFree;
    ScanBegins(text, accept, reserved, patterns);
    var claimed: seq<Span> := [];
    var counters: map<string, nat> := map[];
    matches := [];
    for r := 0 to |reserved|
      invariant claimed == Flatten(reserved[..r])
    {
      FlattenStep(reserved, r);
      claimed := claimed + reserved[r];
    }

    ghost var start := Start(reserved);
    for k := 0 to |patterns|
      invariant State(claimed, matches, counters) == ScanPatterns(text, accept, patterns[..k], start)
    {
      var kind, hits := patterns[k].kind, patterns[k].hits;
      ghost var before := State(claimed, matches, counters);
      ScanPatternsStep(text, accept, patterns, k, start);
      ScanNone(text, kind, accept, hits, before);
      for i := 0 to |hits|
        invariant State(claimed, matches, counters) == ScanHits(text, kind, accept, hits[..i], before)
      {
        ScanHitsStep(text, kind, accept, hits, i, before);
        var hit := hits[i];
        var value := text[hit.start..hit.end];
        if !accept(kind, value) {
          continue;
        }
        if OverlapsAny(hit, claimed) {
          continue;
        }
        counters := counters[kind := (if kind in counters then counters[kind] else 0) + 1];
        matches := matches + [Match(kind, Placeholder(kind, counters[kind]), hit.start, hit.end, value)];
        claimed := claimed + [hit];
      }
      assert hits[..|hits|] == hits;
    }
    matches := SortByStart(matches);
  }

  // ----- One pattern is a filter ------------------------------------------------------------------

  /** The hits of one pattern that are accepted and clear of everything claimed before the pattern ran. */
  function Pick(text: string, kind: string, accept: Accept, hits: seq<Span>, claimed: seq<Span>): (r: seq<Span>)
    requires ScanOrder(text, hits)
  {
    if hits == [] then []
    else
      var last := hits[|hits| - 1];
      Pick(text, kind, accept, hits[..|hits| - 1], claimed)
      + if accept(kind, text[last.start..last.end]) && !OverlapsAny(last, claimed) then [last] else []
  }

  ghost predicate Picked(text: string, kind: string, accept: Accept, hits: seq<Span>, claimed: seq<Span>, h: Span)
    requires InText(text, h)
  {
    h in hits && accept(kind, text[h.start..h.end]) && !OverlapsAny(h, claimed)
  }

  lemma PickLast(text: string, kind: string, accept: Accept, hits: seq<Span>, claimed: seq<Span>)
    requires ScanOrder(text, hits) && hits != []
    ensures var last, q := hits[|hits| - 1], Pick(text, kind, accept, hits[..|hits| - 1], claimed);
            var taken := accept(kind, text[last.start..last.end]) && !OverlapsAny(last, claimed);
            && (taken ==> Pick(text, kind, accept, hits, claimed) == q + [last])
            && (!taken ==> Pick(text, kind, accept, hits, claimed) == q)
  {
    hide ScanOrder, OverlapsAny;
  }

  lemma {:induction false} PickOrder(text: string, kind: string, accept: Accept, hits: seq<Span>, claimed: seq<Span>)
    requires ScanOrder(text, hits)
    ensures ScanOrder(text, Pick(text, kind, accept, hits, claimed))
    ensures forall h :: h in Pick(text, kind, accept, hits, claimed) ==> h.end <= hits[|hits| - 1].end
  {
    hide Pick, OverlapsAny;
    if hits == [] {
      PickNone(text, kind, accept, claimed);
    } else {
      var n := |hits| - 1;
      OrderedInit(text, hits);
      PickLast(text, kind, accept, hits, claimed);
      hide ScanOrder;
      PickOrder(text, kind, accept, hits[..n], claimed);
      if n > 0 {
        OrderedAppend(text, Pick(text, kind, accept, hits[..n], claimed), hits[n], hits[n - 1].end);
      } else {
        PickNone(text, kind, accept, claimed);
        OrderedAppend(text, [], hits[0], 0);
      }
    }
  }

  lemma OrderedInit(text: string, hits: seq<Span>)
    requires ScanOrder(text, hits) && hits != []
    ensures var n := |hits| - 1;
            && ScanOrder(text, hits[..n]) && InText(text, hits[n])
            && (n > 0 ==> hits[..n][n - 1] == hits[n - 1] && hits[n - 1].end <= hits[n].start < hits[n].end)
  {
  }

  lemma PickNone(text: string, kind: string, accept: Accept, claimed: seq<Span>)
    ensures Pick(text, kind, accept, [], claimed) == []
  {
  }

  lemma OrderedAppend(text: string, hits: seq<Span>, hit: Span, bound: nat)
    requires ScanOrder(text, hits) && InText(text, hit) && bound <= hit.start
    requires forall h :: h in hits ==> h.end <= bound
    ensures ScanOrder(text, hits + [hit])
  {
  }

  lemma {:induction false} PickIsFilter(
    text: string, kind: string, accept: Accept, hits: seq<Span>, claimed: seq<Span>, h: Span)
    requires ScanOrder(text, hits) && InText(text, h)
    ensures h in Pick(text, kind, accept, hits, claimed) <==> Picked(text, kind, accept, hits, claimed, h)
  {
    hide Pick, OverlapsAny;
    if hits == [] {
      PickNone(text, kind, accept, claimed);
    } else {
      var last := |hits| - 1;
      PickLast(text, kind, accept, hits, claimed);
      PickIsFilter(text, kind, accept, hits[..last], claimed, h);
      assert hits == hits[..last] + [hits[last]];
      assert h in hits <==> h in hits[..last] || h == hits[last];
    }
  }

  function MakeMatches(text: string, kind: string, spans: seq<Span>): seq<Match>
    requires ScanOrder(text, spans)
  {
    seq(|spans|, i requires 0 <= i < |spans| =>
      Match(kind, Placeholder(kind, i + 1), spans[i].start, spans[i].end, text[spans[i].start..spans[i].end]))
  }

  function Layer(text: string, kind: string, spans: seq<Span>, st: State): State
    requires ScanOrder(text, spans)
  {
    State(
      st.claimed + spans,
      st.matches + MakeMatches(text, kind, spans),
      if spans == [] then st.counters else st.counters[kind := |spans|])
  }

  lemma PickEndsBeforeNext(text: string, kind: string, accept: Accept, hits: seq<Span>, claimed: seq<Span>)
    requires ScanOrder(text, hits) && hits != []
    ensures var q := Pick(text, kind, accept, hits[..|hits| - 1], claimed);
            forall i :: 0 <= i < |q| ==> q[i].end <= hits[|hits| - 1].start
  {
    var init := hits[..|hits| - 1];
    PickOrder(text, kind, accept, init, claimed);
    var q := Pick(text, kind, accept, init, claimed);
    forall i | 0 <= i < |q|
      ensures q[i].end <= hits[|hits| - 1].start
    {
      assert q[i] in q;
      assert q[i].end <= init[|init| - 1].end;
    }
  }

  lemma {:induction false} ScanHitsIsLayer(text: string, kind: string, accept: Accept, hits: seq<Span>, st: State)
    requires ScanOrder(text, hits) && kind !in st.counters
    ensures ScanOrder(text, Pick(text, kind, accept, hits, st.claimed))
    ensures ScanHits(text, kind, accept, hits, st)
         == Layer(text, kind, Pick(text, kind, accept, hits, st.claimed), st)
  {
    PickOrder(text, kind, accept, hits, st.claimed);
    if hits == [] {
      assert Layer(text, kind, [], st) == st;
    } else {
      var init, hit := hits[..|hits| - 1], hits[|hits| - 1];
      ScanHitsIsLayer(text, kind, accept, init, st);
      var q := Pick(text, kind, accept, init, st.claimed);
      PickEndsBeforeNext(text, kind, accept, hits, st.claimed);
      ConsiderExtendsLayer(text, kind, accept, q, st, hit);
    }
  }

  lemma ConsiderExtendsLayer(text: string, kind: string, accept: Accept, q: seq<Span>, st: State, hit: Span)
    requires ScanOrder(text, q) && InText(text, hit) && kind !in st.counters
    requires forall i :: 0 <= i < |q| ==> q[i].end <= hit.start
    ensures var p := q + if accept(kind, text[hit.start..hit.end]) && !OverlapsAny(hit, st.claimed) then [hit] else [];
            ScanOrder(text, p) && Consider(text, kind, accept, Layer(text, kind, q, st), hit) == Layer(text, kind, p, st)
  {
    ClearOfOwnPattern(hit, st.claimed, q);
    if accept(kind, text[hit.start..hit.end]) && !OverlapsAny(hit, st.claimed) {
      var p := q + [hit];
      assert ScanOrder(text, p);
      assert MakeMatches(text, kind, p) == MakeMatches(text, kind, q)
        + [Match(kind, Placeholder(kind, |q| + 1), hit.start, hit.end, text[hit.start..hit.end])];
      assert st.claimed + p == st.claimed + q + [hit];
    } else {
      assert q + [] == q;
    }
  }

  /** Spans that end before a hit never decide whether it overlaps something. */
  lemma ClearOfOwnPattern(hit: Span, claimed: seq<Span>, own: seq<Span>)
    requires forall i :: 0 <= i < |own| ==> own[i].end <= hit.start
    ensures OverlapsAny(hit, claimed + own) <==> OverlapsAny(hit, claimed)
  {
    var all := claimed + own;
    if OverlapsAny(hit, claimed) {
      var i :| 0 <= i < |claimed| && Overlap(hit, claimed[i]);
      assert all[i] == claimed[i];
    }
    forall i | |claimed| <= i < |all|
      ensures !Overlap(hit, all[i])
    {
      assert all[i] == own[i - |claimed|];
    }
  }

  // ----- What the whole scan selects ----------------------------------------------------------------

  function Wheres(ms: seq<Match>): seq<Span> {
    seq(|ms|, i requires 0 <= i < |ms| => ms[i].Where())
  }

  predicate FaithfulTo(text: string, m: Match) {
    InText(text, m.Where()) && m.value == text[m.start..m.end]
  }

  predicate Disjoint(spans: seq<Span>) {
    forall i, j :: 0 <= i < j < |spans| ==> !Overlap(spans[i], spans[j])
  }

  /** The matches of one kind, in order. */
  function ByKind(ms: seq<Match>, kind: string): seq<Match> {
    if ms == [] then []
    else
      var rest := ByKind(ms[..|ms| - 1], kind);
      if ms[|ms| - 1].kind == kind then rest + [ms[|ms| - 1]] else rest
  }

  lemma {:induction false} ByKindAppend(a: seq<Match>, b: seq<Match>, kind: string)
    ensures ByKind(a + b, kind) == ByKind(a, kind) + ByKind(b, kind)
  {
    if b == [] {
      assert a + b == a;
    } else {
      assert (a + b)[..|a + b| - 1] == a + b[..|b| - 1];
      ByKindAppend(a, b[..|b| - 1], kind);
    }
  }

  lemma {:induction false} ByKindUniform(ms: seq<Match>, kind: string, own: string)
    requires forall i :: 0 <= i < |ms| ==> ms[i].kind == own
    ensures ByKind(ms, kind) == if kind == own then ms else []
  {
    if ms != [] {
      ByKindUniform(ms[..|ms| - 1], kind, own);
    }
  }

  lemma {:induction false} ByKindIn(ms: seq<Match>, kind: string, m: Match)
    ensures m in ByKind(ms, kind) <==> m in ms && m.kind == kind
  {
    if ms != [] {
      ByKindIn(ms[..|ms| - 1], kind, m);
      assert ms == ms[..|ms| - 1] + [ms[|ms| - 1]];
    }
  }

  /** Kinds claimed so far all belong to the patterns already run. */
  ghost predicate KindsFrom(patterns: seq<Pattern>, st: State) {
    && (forall kind :: kind in st.counters ==> exists k :: 0 <= k < |patterns| && patterns[k].kind == kind)
    && (forall i :: 0 <= i < |st.matches| ==>
          exists k :: 0 <= k < |patterns| && patterns[k].kind == st.matches[i].kind
                   && st.matches[i].Where() in patterns[k].hits)
  }

  ghost predicate ScanInvariant(text: string, reserved: seq<Span>, patterns: seq<Pattern>, st: State) {
    && st.claimed == reserved + Wheres(st.matches)
    && (forall i :: 0 <= i < |st.matches| ==> FaithfulTo(text, st.matches[i]))
    && Disjoint(Wheres(st.matches))
    && (forall i :: 0 <= i < |st.matches| ==> !OverlapsAny(st.matches[i].Where(), reserved))
    && KindsFrom(patterns, st)
  }

  lemma FreshKind(text: string, patterns: seq<Pattern>, st: State)
    requires ValidScan(text, patterns) && patterns != [] && KindsFrom(patterns[..|patterns| - 1], st)
    ensures patterns[|patterns| - 1].kind !in st.counters
    ensures forall i :: 0 <= i < |st.matches| ==> st.matches[i].kind != patterns[|patterns| - 1].kind
  {
  }

  lemma LayerClaims(text: string, kind: string, reserved: seq<Span>, p: seq<Span>, st: State)
    requires ScanOrder(text, p) && st.claimed == reserved + Wheres(st.matches)
    ensures var st' := Layer(text, kind, p, st);
            Wheres(st'.matches) == Wheres(st.matches) + p && st'.claimed == reserved + Wheres(st'.matches)
  {
    var new_ := MakeMatches(text, kind, p);
    assert Wheres(new_) == p;
    assert Wheres(st.matches + new_) == Wheres(st.matches) + Wheres(new_);
  }

  lemma FreeOfEarlier(h: Span, reserved: seq<Span>, earlier: seq<Span>)
    requires !OverlapsAny(h, reserved + earlier)
    ensures !OverlapsAny(h, reserved) && !OverlapsAny(h, earlier)
  {
    var claimed := reserved + earlier;
    assert forall j :: 0 <= j < |reserved| ==> claimed[j] == reserved[j];
    assert forall j :: 0 <= j < |earlier| ==> claimed[|reserved| + j] == earlier[j];
  }

  lemma LayerStaysDisjoint(text: string, earlier: seq<Span>, p: seq<Span>)
    requires Disjoint(earlier) && ScanOrder(text, p)
    requires forall i :: 0 <= i < |p| ==> !OverlapsAny(p[i], earlier)
    ensures Disjoint(earlier + p)
  {
    var all, n := earlier + p, |earlier|;
    forall i, j | 0 <= i < j < |all|
      ensures !Overlap(all[i], all[j])
    {
      if j >= n {
        assert !OverlapsAny(p[j - n], earlier);
        assert i < n ==> !Overlap(p[j - n], earlier[i]);
      }
    }
  }

  lemma LayerKeepsKinds(text: string, patterns: seq<Pattern>, p: seq<Span>, st: State)
    requires patterns != [] && ScanOrder(text, p) && KindsFrom(patterns[..|patterns| - 1], st)
    requires forall h :: h in p ==> h in patterns[|patterns| - 1].hits
    ensures KindsFrom(patterns, Layer(text, patterns[|patterns| - 1].kind, p, st))
  {
    hide ScanOrder, Placeholder;
    var last := |patterns| - 1;
    var kind, n := patterns[last].kind, |st.matches|;
    var new_, st' := MakeMatches(text, kind, p), Layer(text, kind, p, st);
    forall i | 0 <= i < |st'.matches|
      ensures exists k :: 0 <= k < |patterns| && patterns[k].kind == st'.matches[i].kind
                       && st'.matches[i].Where() in patterns[k].hits
    {
      if i < n {
        var k :| 0 <= k < last && patterns[..last][k].kind == st.matches[i].kind
              && st.matches[i].Where() in patterns[..last][k].hits;
        assert st'.matches[i] == st.matches[i] && patterns[k] == patterns[..last][k];
        assert patterns[k].kind == st'.matches[i].kind;
      } else {
        assert st'.matches[i] == new_[i - n] && new_[i - n].Where() == p[i - n];
        assert p[i - n] in p;
        assert patterns[last].kind == st'.matches[i].kind;
      }
    }
    forall c | c in st'.counters
      ensures exists k :: 0 <= k < |patterns| && patterns[k].kind == c
    {
      if c != kind {
        var k :| 0 <= k < last && patterns[..last][k].kind == c;
        assert patterns[k].kind == c;
      } else {
        assert patterns[last].kind == c;
      }
    }
  }

  lemma LayerKeepsInvariant(text: string, reserved: seq<Span>, patterns: seq<Pattern>, st: State, p: seq<Span>)
    requires ValidScan(text, patterns) && patterns != []
    requires ScanInvariant(text, reserved, patterns[..|patterns| - 1], st)
    requires ScanOrder(text, p)
    requires forall h :: h in p ==> h in patterns[|patterns| - 1].hits && !OverlapsAny(h, st.claimed)
    ensures ScanInvariant(text, reserved, patterns, Layer(text, patterns[|patterns| - 1].kind, p, st))
  {
    hide OverlapsAny, Disjoint, KindsFrom, Placeholder;
    var kind, n := patterns[|patterns| - 1].kind, |st.matches|;
    var new_, st' := MakeMatches(text, kind, p), Layer(text, kind, p, st);
    LayerClaims(text, kind, reserved, p, st);
    forall i | 0 <= i < |p|
      ensures !OverlapsAny(p[i], reserved) && !OverlapsAny(p[i], Wheres(st.matches))
    {
      assert p[i] in p;
      FreeOfEarlier(p[i], reserved, Wheres(st.matches));
    }
    LayerStaysDisjoint(text, Wheres(st.matches), p);
    LayerKeepsKinds(text, patterns, p, st);
    forall i | 0 <= i < |st'.matches|
      ensures FaithfulTo(text, st'.matches[i]) && !OverlapsAny(st'.matches[i].Where(), reserved)
    {
      if i >= n {
        assert st'.matches[i] == new_[i - n] && new_[i - n].Where() == p[i - n];
      }
    }
  }

  lemma {:induction false} ScanKeepsInvariant(
    text: string, reserved: seq<seq<Span>>, patterns: seq<Pattern>, accept: Accept)
    requires ValidScan(text, patterns)
    ensures ScanInvariant(text, Flatten(reserved), patterns, ScanPatterns(text, accept, patterns, Start(reserved)))
    decreases |patterns|, 1
  {
    if patterns == [] {
      assert Wheres([]) == [];
    } else {
      var init, p := LastLayer(text, reserved, patterns, accept);
      LayerKeepsInvariant(text, Flatten(reserved), patterns, init, p);
    }
  }

  /** The last pattern's contribution, on top of the state all earlier patterns left. */
  lemma LastLayer(text: string, reserved: seq<seq<Span>>, patterns: seq<Pattern>, accept: Accept)
    returns (init: State, p: seq<Span>)
    requires ValidScan(text, patterns) && patterns != []
    ensures init == ScanPatterns(text, accept, patterns[..|patterns| - 1], Start(reserved))
    ensures ScanInvariant(text, Flatten(reserved), patterns[..|patterns| - 1], init)
    ensures var last := patterns[|patterns| - 1];
            && ScanOrder(text, p)
            && (forall h :: InText(text, h) ==> (h in p <==> Picked(text, last.kind, accept, last.hits, init.claimed, h)))
            && (forall h :: h in p ==> h in last.hits && !OverlapsAny(h, init.claimed))
            && ScanPatterns(text, accept, patterns, Start(reserved)) == Layer(text, last.kind, p, init)
    decreases |patterns|, 0
  {
    var last := patterns[|patterns| - 1];
    ScanKeepsInvariant(text, reserved, patterns[..|patterns| - 1], accept);
    init := ScanPatterns(text, accept, patterns[..|patterns| - 1], Start(reserved));
    FreshKind(text, patterns, init);
    ScanHitsIsLayer(text, last.kind, accept, last.hits, init);
    p := Pick(text, last.kind, accept, last.hits, init.claimed);
    forall h | InText(text, h)
      ensures h in p <==> Picked(text, last.kind, accept, last.hits, init.claimed, h)
    {
      PickIsFilter(text, last.kind, accept, last.hits, init.claimed, h);
    }
    forall h | h in p
      ensures h in last.hits && !OverlapsAny(h, init.claimed)
    {
      assert InText(text, h);
    }
  }

  /** Numbers 1..n of one kind, left to right. */
  ghost predicate NumberedLeftToRight(ms: seq<Match>, kind: string) {
    && (forall j :: 0 <= j < |ms| ==> ms[j].kind == kind && ms[j].placeholder == Placeholder(kind, j + 1))
    && (forall i, j :: 0 <= i < j < |ms| ==> ms[i].start < ms[j].start)
  }

  /** `p` is `[kind_n]`, with `n` in decimal digits. */
  predicate Labels(p: string, kind: string, n: nat) {
    && |p| >= |kind| + 3
    && p[..|kind| + 2] == "[" + kind + "_" && p[|p| - 1] == ']'
    && ReadsAs(p[|kind| + 2..|p| - 1], n)
  }

  lemma PlaceholderLabels(kind: string, n: nat)
    ensures Labels(Placeholder(kind, n), kind, n)
  {
    DecimalReads(n);
    hide ReadsAs, Decimal;
    var p := Placeholder(kind, n);
    assert p == "[" + kind + "_" + Decimal(n) + "]";
    assert p[|kind| + 2..|p| - 1] == Decimal(n);
  }

  lemma LayerIsNumbered(text: string, kind: string, spans: seq<Span>)
    requires ScanOrder(text, spans)
    ensures NumberedLeftToRight(MakeMatches(text, kind, spans), kind)
  {
    hide Placeholder;
  }

  lemma NothingIsNumbered(kind: string)
    ensures NumberedLeftToRight(ByKind([], kind), kind)
  {
  }

  /** The matches of the last pattern, behind those of all earlier ones. */
  lemma LastMatches(text: string, reserved: seq<seq<Span>>, patterns: seq<Pattern>, accept: Accept)
    returns (earlier: seq<Match>, own: seq<Match>)
    requires ValidScan(text, patterns) && patterns != []
    ensures earlier == ScanPatterns(text, accept, patterns[..|patterns| - 1], Start(reserved)).matches
    ensures ScanPatterns(text, accept, patterns, Start(reserved)).matches == earlier + own
    ensures NumberedLeftToRight(own, patterns[|patterns| - 1].kind)
    ensures forall i :: 0 <= i < |own| ==> own[i].kind == patterns[|patterns| - 1].kind
    ensures forall i :: 0 <= i < |earlier| ==> earlier[i].kind != patterns[|patterns| - 1].kind
  {
    var kind := patterns[|patterns| - 1].kind;
    var init, p := LastLayer(text, reserved, patterns, accept);
    earlier, own := init.matches, MakeMatches(text, kind, p);
    assert Layer(text, kind, p, init).matches == earlier + own;
    assert ScanInvariant(text, Flatten(reserved), patterns[..|patterns| - 1], init)
      ==> KindsFrom(patterns[..|patterns| - 1], init);
    hide *;
    LayerIsNumbered(text, kind, p);
    KindsOfNumbered(own, kind);
    FreshKind(text, patterns, init);
  }

  lemma KindsOfNumbered(ms: seq<Match>, kind: string)
    requires NumberedLeftToRight(ms, kind)
    ensures forall i :: 0 <= i < |ms| ==> ms[i].kind == kind
  {
  }

  lemma {:induction false} ScanNumbersEachKind(
    text: string, reserved: seq<seq<Span>>, patterns: seq<Pattern>, accept: Accept, kind: string)
    requires ValidScan(text, patterns)
    ensures NumberedLeftToRight(ByKind(ScanPatterns(text, accept, patterns, Start(reserved)).matches, kind), kind)
  {
    if patterns == [] {
      NothingIsNumbered(kind);
    } else {
      var last := patterns[|patterns| - 1].kind;
      var earlier, own := LastMatches(text, reserved, patterns, accept);
      assert ValidScan(text, patterns[..|patterns| - 1]);
      hide *;
      ScanNumbersEachKind(text, reserved, patterns[..|patterns| - 1], accept, kind);
      ByKindAppend(earlier, own, kind);
      ByKindUniform(own, kind, last);
      if kind == last {
        ByKindAbsent(earlier, kind);
        assert [] + own == own;
      } else {
        assert ByKind(earlier, kind) + [] == ByKind(earlier, kind);
      }
    }
  }

  lemma {:induction false} ByKindAbsent(ms: seq<Match>, kind: string)
    requires forall i :: 0 <= i < |ms| ==> ms[i].kind != kind
    ensures ByKind(ms, kind) == []
  {
    if ms != [] {
      ByKindAbsent(ms[..|ms| - 1], kind);
    }
  }

  // ----- The selection, defined without the scan ----------------------------------------------------

  ghost predicate Taken(ms: seq<Match>, kind: string, h: Span) {
    exists m :: m in ms && m.kind == kind && m.Where() == h
  }

  ghost predicate Blocked(ms: seq<Match>, patterns: seq<Pattern>, k: nat, h: Span)
    requires k <= |patterns|
  {
    exists i, m :: 0 <= i < k && m in ms && m.kind == patterns[i].kind && Overlap(h, m.Where())
  }

  ghost predicate TakenWhenFree(
    text: string, reserved: seq<Span>, patterns: seq<Pattern>, accept: Accept, ms: seq<Match>, k: nat, h: Span)
    requires k < |patterns| && InText(text, h)
  {
    Taken(ms, patterns[k].kind, h)
    <==> accept(patterns[k].kind, text[h.start..h.end]) && !OverlapsAny(h, reserved) && !Blocked(ms, patterns, k, h)
  }

  /**
   * Priority-greedy selection: a hit is selected exactly when it is accepted, clear of every reserved
   * span, and clear of everything selected for a pattern of higher priority; nothing else is selected.
   */
  ghost predicate PriorityGreedy(
    text: string, reserved: seq<Span>, patterns: seq<Pattern>, accept: Accept, ms: seq<Match>)
    requires ValidScan(text, patterns)
  {
    && (forall m :: m in ms ==>
          exists k :: 0 <= k < |patterns| && m.kind == patterns[k].kind && m.Where() in patterns[k].hits)
    && (forall k, h :: 0 <= k < |patterns| && h in patterns[k].hits ==>
          TakenWhenFree(text, reserved, patterns, accept, ms, k, h))
  }

  /** The greedy selection is unique: two lists that satisfy it select the same spans for every pattern. */
  lemma {:induction false} GreedyIsUnique(
    text: string, reserved: seq<Span>, patterns: seq<Pattern>, accept: Accept, a: seq<Match>, b: seq<Match>, k: nat, h: Span)
    requires ValidScan(text, patterns) && k < |patterns| && h in patterns[k].hits
    requires PriorityGreedy(text, reserved, patterns, accept, a)
    requires PriorityGreedy(text, reserved, patterns, accept, b)
    ensures Taken(a, patterns[k].kind, h) <==> Taken(b, patterns[k].kind, h)
    decreases k, 1
  {
    BlockedAlike(text, reserved, patterns, accept, a, b, k, h);
    BlockedAlike(text, reserved, patterns, accept, b, a, k, h);
    assert TakenWhenFree(text, reserved, patterns, accept, a, k, h);
    assert TakenWhenFree(text, reserved, patterns, accept, b, k, h);
  }

  lemma {:induction false} BlockedAlike(
    text: string, reserved: seq<Span>, patterns: seq<Pattern>, accept: Accept, a: seq<Match>, b: seq<Match>, k: nat, h: Span)
    requires ValidScan(text, patterns) && k < |patterns|
    requires PriorityGreedy(text, reserved, patterns, accept, a)
    requires PriorityGreedy(text, reserved, patterns, accept, b)
    ensures Blocked(a, patterns, k, h) ==> Blocked(b, patterns, k, h)
    decreases k, 0
  {
    if Blocked(a, patterns, k, h) {
      var i, m :| 0 <= i < k && m in a && m.kind == patterns[i].kind && Overlap(h, m.Where());
      SelectedFromItsPattern(text, reserved, patterns, accept, a, i, m);
      GreedyIsUnique(text, reserved, patterns, accept, a, b, i, m.Where());
      TakenBlocks(b, patterns, k, h, i, m.Where());
    }
  }

  lemma SelectedFromItsPattern(
    text: string, reserved: seq<Span>, patterns: seq<Pattern>, accept: Accept, a: seq<Match>, i: nat, m: Match)
    requires ValidScan(text, patterns) && PriorityGreedy(text, reserved, patterns, accept, a)
    requires i < |patterns| && m in a && m.kind == patterns[i].kind
    ensures m.Where() in patterns[i].hits && Taken(a, patterns[i].kind, m.Where())
  {
    var k :| 0 <= k < |patterns| && m.kind == patterns[k].kind && m.Where() in patterns[k].hits;
    assert k == i;
  }

  lemma TakenBlocks(ms: seq<Match>, patterns: seq<Pattern>, k: nat, h: Span, i: nat, other: Span)
    requires i < k <= |patterns| && Taken(ms, patterns[i].kind, other) && Overlap(h, other)
    ensures Blocked(ms, patterns, k, h)
  {
    var n :| n in ms && n.kind == patterns[i].kind && n.Where() == other;
  }

  lemma {:induction false} ScanIsGreedy(
    text: string, reserved: seq<seq<Span>>, patterns: seq<Pattern>, accept: Accept)
    requires ValidScan(text, patterns)
    ensures PriorityGreedy(text, Flatten(reserved), patterns, accept,
                           ScanPatterns(text, accept, patterns, Start(reserved)).matches)
  {
    var rs := Flatten(reserved);
    var ms := ScanPatterns(text, accept, patterns, Start(reserved)).matches;
    ScanKeepsInvariant(text, reserved, patterns, accept);
    if patterns != [] {
      var last := |patterns| - 1;
      var init, p := LastLayer(text, reserved, patterns, accept);
      ScanIsGreedy(text, reserved, patterns[..last], accept);
      FreshKind(text, patterns, init);
      forall k, h | 0 <= k < |patterns| && h in patterns[k].hits
        ensures TakenWhenFree(text, rs, patterns, accept, ms, k, h)
      {
        BlockersComeFirst(text, patterns, init, p, k, h);
        TakenInLayer(text, patterns[last].kind, p, init, patterns[k].kind, h);
        if k < last {
          assert patterns[..last][k] == patterns[k];
          assert TakenWhenFree(text, rs, patterns[..last], accept, init.matches, k, h);
        } else {
          BlockedIsClaimed(rs, patterns, init, h);
        }
      }
    }
  }

  lemma TakenInLayer(text: string, own: string, p: seq<Span>, st: State, kind: string, h: Span)
    requires ScanOrder(text, p)
    requires forall i :: 0 <= i < |st.matches| ==> st.matches[i].kind != own
    ensures var ms := Layer(text, own, p, st).matches;
            Taken(ms, kind, h) <==> if kind == own then h in p else Taken(st.matches, kind, h)
  {
    var new_ := MakeMatches(text, own, p);
    var ms := st.matches + new_;
    if kind == own && h in p {
      var i :| 0 <= i < |p| && p[i] == h;
      assert new_[i] in ms && new_[i].Where() == h;
    }
    forall m | m in ms && m.kind == kind && m.Where() == h
      ensures if kind == own then h in p else m in st.matches
    {
      if kind == own {
        var i :| 0 <= i < |new_| && new_[i] == m;
        assert p[i] == h;
      }
    }
  }

  /** A layer's own matches never block a hit of the same or an earlier pattern. */
  lemma BlockersComeFirst(text: string, patterns: seq<Pattern>, st: State, p: seq<Span>, k: nat, h: Span)
    requires ValidScan(text, patterns) && k < |patterns| && ScanOrder(text, p)
    ensures var last := |patterns| - 1;
            && Blocked(Layer(text, patterns[last].kind, p, st).matches, patterns, k, h)
               == Blocked(st.matches, patterns, k, h)
            && (k < last ==> Blocked(st.matches, patterns, k, h) == Blocked(st.matches, patterns[..last], k, h))
  {
    var last := |patterns| - 1;
    var new_ := MakeMatches(text, patterns[last].kind, p);
    assert Layer(text, patterns[last].kind, p, st).matches == st.matches + new_;
    assert forall m :: m in new_ ==> m.kind == patterns[last].kind;
    assert forall i :: 0 <= i < k ==> patterns[i].kind != patterns[last].kind;
    hide *;
    BlockedByOthers(st.matches, new_, patterns, k, h);
    if k < last {
      BlockedByPrefix(st.matches, patterns, last, k, h);
    }
  }

  lemma BlockedByOthers(ms: seq<Match>, new_: seq<Match>, patterns: seq<Pattern>, k: nat, h: Span)
    requires k <= |patterns| && forall i, m :: 0 <= i < k && m in new_ ==> m.kind != patterns[i].kind
    ensures Blocked(ms + new_, patterns, k, h) == Blocked(ms, patterns, k, h)
  {
    hide Overlap;
    assert forall m :: m in ms + new_ <==> m in ms || m in new_;
  }

  lemma BlockedByPrefix(ms: seq<Match>, patterns: seq<Pattern>, n: nat, k: nat, h: Span)
    requires k <= n <= |patterns|
    ensures Blocked(ms, patterns, k, h) == Blocked(ms, patterns[..n], k, h)
  {
    hide Overlap;
    assert forall i :: 0 <= i < k ==> patterns[..n][i] == patterns[i];
  }

  lemma OverlapsEither(h: Span, a: seq<Span>, b: seq<Span>)
    ensures OverlapsAny(h, a + b) <==> OverlapsAny(h, a) || OverlapsAny(h, b)
  {
    hide Overlap;
    var all := a + b;
    if OverlapsAny(h, a) {
      var i :| 0 <= i < |a| && Overlap(h, a[i]);
      assert all[i] == a[i];
    }
    if OverlapsAny(h, b) {
      var i :| 0 <= i < |b| && Overlap(h, b[i]);
      assert all[|a| + i] == b[i];
    }
  }

  /** With matches of the earlier patterns only, to overlap one of them is to be blocked. */
  lemma BlockedByMatches(patterns: seq<Pattern>, n: nat, st: State, h: Span)
    requires n <= |patterns| && KindsFrom(patterns[..n], st)
    ensures OverlapsAny(h, Wheres(st.matches)) <==> Blocked(st.matches, patterns, n, h)
  {
    hide Overlap;
    var ms, spans := st.matches, Wheres(st.matches);
    if Blocked(ms, patterns, n, h) {
      var i, m :| 0 <= i < n && m in ms && m.kind == patterns[i].kind && Overlap(h, m.Where());
      var j :| 0 <= j < |ms| && ms[j] == m;
      assert Overlap(h, spans[j]);
    }
    if OverlapsAny(h, spans) {
      var i :| 0 <= i < |spans| && Overlap(h, spans[i]);
      var m := ms[i];
      var k :| 0 <= k < n && patterns[..n][k].kind == m.kind && m.Where() in patterns[..n][k].hits;
      assert m in ms && m.kind == patterns[k].kind;
    }
  }

  lemma BlockedIsClaimed(reserved: seq<Span>, patterns: seq<Pattern>, st: State, h: Span)
    requires patterns != [] && KindsFrom(patterns[..|patterns| - 1], st)
    requires st.claimed == reserved + Wheres(st.matches)
    ensures OverlapsAny(h, st.claimed)
       <==> OverlapsAny(h, reserved) || Blocked(st.matches, patterns, |patterns| - 1, h)
  {
    hide *;
    OverlapsEither(h, reserved, Wheres(st.matches));
    BlockedByMatches(patterns, |patterns| - 1, st, h);
  }

  ghost predicate Ascending(ms: seq<Match>) {
    forall i, j :: 0 <= i < j < |ms| ==> ms[i].start <= ms[j].start
  }

  lemma AscendingSnoc(ms: seq<Match>, m: Match)
    requires Ascending(ms) && forall x :: x in ms ==> x.start <= m.start
    ensures Ascending(ms + [m])
  {
  }

  lemma AscendingInit(ms: seq<Match>)
    requires Ascending(ms) && ms != []
    ensures Ascending(ms[..|ms| - 1])
    ensures forall x :: x in ms ==> x.start <= ms[|ms| - 1].start
    ensures multiset(ms) == multiset(ms[..|ms| - 1]) + multiset{ms[|ms| - 1]}
  {
    assert ms == ms[..|ms| - 1] + [ms[|ms| - 1]];
  }

  lemma {:induction false} InsertSorts(ms: seq<Match>, m: Match)
    requires Ascending(ms)
    ensures Ascending(Insert(ms, m))
    ensures multiset(Insert(ms, m)) == multiset(ms) + multiset{m}
  {
    if ms == [] {
    } else {
      AscendingInit(ms);
      var init, last := ms[..|ms| - 1], ms[|ms| - 1];
      if last.start <= m.start {
        AscendingSnoc(ms, m);
      } else {
        InsertSorts(init, m);
        forall x | x in Insert(init, m)
          ensures x.start <= last.start
        {
          assert x in multiset(Insert(init, m));
          assert x in multiset(ms) || x == m;
        }
        AscendingSnoc(Insert(init, m), last);
      }
    }
  }

  lemma {:induction false} InsertByKind(ms: seq<Match>, m: Match, kind: string)
    requires Ascending(ms)
    ensures ByKind(Insert(ms, m), kind) == if m.kind == kind then Insert(ByKind(ms, kind), m) else ByKind(ms, kind)
  {
    if ms == [] || ms[|ms| - 1].start <= m.start {
      ByKindSnoc(ms, m, kind);
      InsertLast(ByKind(ms, kind), m);
      ByKindEndsEarly(ms, kind, m.start);
    } else {
      var init, last := ms[..|ms| - 1], ms[|ms| - 1];
      AscendingInit(ms);
      InsertByKind(init, m, kind);
      ByKindSnoc(Insert(init, m), last, kind);
      if last.kind == kind {
        InsertBefore(ByKind(init, kind), last, m);
      }
    }
  }

  lemma ByKindSnoc(ms: seq<Match>, m: Match, kind: string)
    ensures ByKind(ms + [m], kind) == if m.kind == kind then ByKind(ms, kind) + [m] else ByKind(ms, kind)
  {
    assert (ms + [m])[..|ms|] == ms;
  }

  lemma InsertBefore(ms: seq<Match>, last: Match, m: Match)
    requires last.start > m.start
    ensures Insert(ms + [last], m) == Insert(ms, m) + [last]
  {
    assert (ms + [last])[..|ms|] == ms;
  }

  lemma InsertLast(ms: seq<Match>, m: Match)
    ensures ms == [] || ms[|ms| - 1].start <= m.start ==> Insert(ms, m) == ms + [m]
  {
  }

  lemma ByKindEndsEarly(ms: seq<Match>, kind: string, bound: nat)
    requires Ascending(ms) && (ms == [] || ms[|ms| - 1].start <= bound)
    ensures var k := ByKind(ms, kind); k == [] || k[|k| - 1].start <= bound
  {
    var k := ByKind(ms, kind);
    if k != [] {
      ByKindIn(ms, kind, k[|k| - 1]);
    }
  }

  lemma {:induction false} SortSorts(ms: seq<Match>)
    ensures Ascending(SortByStart(ms)) && multiset(SortByStart(ms)) == multiset(ms)
  {
    if ms != [] {
      var init, last := ms[..|ms| - 1], ms[|ms| - 1];
      assert ms == init + [last];
      SortSorts(init);
      InsertSorts(SortByStart(init), last);
    }
  }

  /** The sort is stable: it keeps the order of each kind's matches as if they were sorted alone. */
  lemma {:induction false} SortByKind(ms: seq<Match>, kind: string)
    ensures ByKind(SortByStart(ms), kind) == SortByStart(ByKind(ms, kind))
  {
    if ms != [] {
      var init, last := ms[..|ms| - 1], ms[|ms| - 1];
      SortSorts(init);
      SortByKind(init, kind);
      InsertByKind(SortByStart(init), last, kind);
      SortSnoc(ByKind(init, kind), last);
    }
  }

  lemma SortSnoc(ms: seq<Match>, m: Match)
    ensures SortByStart(ms + [m]) == Insert(SortByStart(ms), m)
  {
    assert (ms + [m])[..|ms|] == ms;
  }

  lemma {:induction false} SortOfAscending(ms: seq<Match>)
    requires Ascending(ms)
    ensures SortByStart(ms) == ms
  {
    if ms != [] {
      var init, last := ms[..|ms| - 1], ms[|ms| - 1];
      AscendingInit(ms);
      assert ms == init + [last];
      assert init != [] ==> init[|init| - 1] in ms;
      hide *;
      SortOfAscending(init);
      InsertLast(init, last);
      SortSnoc(init, last);
    }
  }

  /** Non-empty, in reading order, and never overlapping. */
  ghost predicate Separate(ms: seq<Match>) {
    && (forall i :: 0 <= i < |ms| ==> ms[i].start < ms[i].end)
    && (forall i, j :: 0 <= i < j < |ms| ==> ms[i].end <= ms[j].start)
  }

  lemma SeparateSnoc(ms: seq<Match>, m: Match)
    requires Separate(ms) && m.start < m.end && forall x :: x in ms ==> x.end <= m.start
    ensures Separate(ms + [m])
  {
  }

  /** A match that overlaps nothing and starts last ends up behind everything. */
  lemma EndsBefore(ms: seq<Match>, m: Match)
    requires Separate(ms) && ms != [] && ms[|ms| - 1].start <= m.start < m.end
    requires !Overlap(ms[|ms| - 1].Where(), m.Where())
    ensures forall x :: x in ms ==> x.end <= m.start
  {
    var last := ms[|ms| - 1];
    assert last.start < last.end <= m.start;
    hide Overlap;
  }

  /** What a separate list says of the matches before its last one. */
  lemma SeparateInit(ms: seq<Match>)
    requires Separate(ms) && ms != []
    ensures var init, last := ms[..|ms| - 1], ms[|ms| - 1];
            && ms == init + [last] && Separate(init) && last.start < last.end
            && (forall x :: x in init ==> x in ms && x.end <= last.start)
    ensures Ascending(ms[..|ms| - 1])
  {
  }

  lemma InsertIsSum(ms: seq<Match>, m: Match)
    requires ms != [] && ms[|ms| - 1].start > m.start
    ensures Insert(ms, m) == Insert(ms[..|ms| - 1], m) + [ms[|ms| - 1]]
  {
  }

  lemma BeforeTheLast(r: seq<Match>, init: seq<Match>, m: Match, bound: nat)
    requires multiset(r) == multiset(init) + multiset{m}
    requires m.end <= bound && forall x :: x in init ==> x.end <= bound
    ensures forall x :: x in r ==> x.end <= bound
  {
    forall x | x in r
      ensures x.end <= bound
    {
      assert x in multiset(r);
      assert x in init || x == m;
    }
  }

  lemma {:induction false} InsertSeparates(ms: seq<Match>, m: Match)
    requires Separate(ms) && m.start < m.end
    requires forall x :: x in ms ==> !Overlap(x.Where(), m.Where())
    ensures Separate(Insert(ms, m))
  {
    if ms == [] {
      InsertLast(ms, m);
    } else {
      var init, last := ms[..|ms| - 1], ms[|ms| - 1];
      assert last in ms && !Overlap(last.Where(), m.Where());
      if last.start <= m.start {
        hide *;
        EndsBefore(ms, m);
        InsertLast(ms, m);
        SeparateSnoc(ms, m);
      } else {
        assert m.end <= last.start || last.end <= m.start;
        hide *;
        SeparateInit(ms);
        InsertSeparates(init, m);
        InsertSorts(init, m);
        InsertIsSum(ms, m);
        BeforeTheLast(Insert(init, m), init, m, last.start);
        SeparateSnoc(Insert(init, m), last);
      }
    }
  }

  lemma {:induction false} SortSeparates(ms: seq<Match>)
    requires Disjoint(Wheres(ms)) && forall i :: 0 <= i < |ms| ==> ms[i].start < ms[i].end
    ensures Separate(SortByStart(ms))
  {
    if ms != [] {
      var init, last := ms[..|ms| - 1], ms[|ms| - 1];
      var n := |init|;
      assert forall i :: 0 <= i < n ==> Wheres(init)[i] == Wheres(ms)[i];
      SortSeparates(init);
      SortSorts(init);
      forall x | x in SortByStart(init)
        ensures !Overlap(x.Where(), last.Where())
      {
        assert x in multiset(SortByStart(init));
        var i :| 0 <= i < n && init[i] == x;
        assert !Overlap(Wheres(ms)[i], Wheres(ms)[n]);
      }
      InsertSeparates(SortByStart(init), last);
    }
  }

  /** Matches are spans of the text with their own text, in order, disjoint, and clear of reserved spans. */
  lemma DetectIsSound(text: string, reserved: seq<seq<Span>>, patterns: seq<Pattern>, accept: Accept)
    requires ValidScan(text, patterns)
    ensures var r := Detected(text, reserved, patterns, accept);
            && Separate(r)
            && (forall m :: m in r ==> FaithfulTo(text, m) && !OverlapsAny(m.Where(), Flatten(reserved)))
  {
    var ms := ScanPatterns(text, accept, patterns, Start(reserved)).matches;
    ScanKeepsInvariant(text, reserved, patterns, accept);
    SortSeparates(ms);
    SortSorts(ms);
    forall m | m in SortByStart(ms)
      ensures FaithfulTo(text, m) && !OverlapsAny(m.Where(), Flatten(reserved))
    {
      assert m in multiset(SortByStart(ms));
    }
  }

  lemma SameMembersSameSelection(a: seq<Match>, b: seq<Match>, patterns: seq<Pattern>, k: nat, h: Span)
    requires k < |patterns| && forall m :: m in a <==> m in b
    ensures Taken(a, patterns[k].kind, h) <==> Taken(b, patterns[k].kind, h)
    ensures Blocked(a, patterns, k, h) <==> Blocked(b, patterns, k, h)
  {
  }

  lemma GreedyIgnoresOrder(
    text: string, reserved: seq<Span>, patterns: seq<Pattern>, accept: Accept, a: seq<Match>, b: seq<Match>)
    requires ValidScan(text, patterns) && PriorityGreedy(text, reserved, patterns, accept, a)
    requires forall m :: m in a <==> m in b
    ensures PriorityGreedy(text, reserved, patterns, accept, b)
  {
    forall k, h | 0 <= k < |patterns| && h in patterns[k].hits
      ensures TakenWhenFree(text, reserved, patterns, accept, b, k, h)
    {
      assert TakenWhenFree(text, reserved, patterns, accept, a, k, h);
      SameMembersSameSelection(a, b, patterns, k, h);
    }
  }

  /** `detect` returns the priority-greedy selection. */
  lemma DetectIsGreedy(text: string, reserved: seq<seq<Span>>, patterns: seq<Pattern>, accept: Accept)
    requires ValidScan(text, patterns)
    ensures PriorityGreedy(text, Flatten(reserved), patterns, accept, Detected(text, reserved, patterns, accept))
  {
    var ms := ScanPatterns(text, accept, patterns, Start(reserved)).matches;
    ScanIsGreedy(text, reserved, patterns, accept);
    SortKeepsMembers(ms);
    GreedyIgnoresOrder(text, Flatten(reserved), patterns, accept, ms, SortByStart(ms));
  }

  lemma SortKeepsMembers(ms: seq<Match>)
    ensures forall m :: m in ms <==> m in SortByStart(ms)
  {
    SortSorts(ms);
    forall m
      ensures m in ms <==> m in SortByStart(ms)
    {
      assert m in multiset(ms) <==> m in multiset(SortByStart(ms));
    }
  }

  /** Each kind is numbered 1..n without gaps in reading order. */
  lemma DetectNumbersEachKind(
    text: string, reserved: seq<seq<Span>>, patterns: seq<Pattern>, accept: Accept, kind: string)
    requires ValidScan(text, patterns)
    ensures var ms := ByKind(Detected(text, reserved, patterns, accept), kind);
            && NumberedLeftToRight(ms, kind)
            && forall j :: 0 <= j < |ms| ==> Labels(ms[j].placeholder, kind, j + 1)
  {
    var ms := ScanPatterns(text, accept, patterns, Start(reserved)).matches;
    assert Detected(text, reserved, patterns, accept) == SortByStart(ms);
    hide *;
    ScanNumbersEachKind(text, reserved, patterns, accept, kind);
    SortByKind(ms, kind);
    SortNumbered(ByKind(ms, kind), kind);
    NumberedAreLabelled(ByKind(ms, kind), kind);
  }

  lemma SortNumbered(ms: seq<Match>, kind: string)
    requires NumberedLeftToRight(ms, kind)
    ensures SortByStart(ms) == ms
  {
    SortOfAscending(ms);
  }

  lemma NumberedAreLabelled(ms: seq<Match>, kind: string)
    requires NumberedLeftToRight(ms, kind)
    ensures forall j :: 0 <= j < |ms| ==> Labels(ms[j].placeholder, kind, j + 1)
  {
    hide Labels, Placeholder;
    forall j | 0 <= j < |ms|
      ensures Labels(ms[j].placeholder, kind, j + 1)
    {
      PlaceholderLabels(kind, j + 1);
    }
  }

  lemma {:induction false} PositionInKind(ms: seq<Match>, i: nat)
    requires i < |ms|
    ensures var k := ms[i].kind; var j := |ByKind(ms[..i], k)|;
            j < |ByKind(ms, k)| && ByKind(ms, k)[j] == ms[i]
  {
    var k := ms[i].kind;
    ByKindAppend(ms[..i + 1], ms[i + 1..], k);
    assert ms[..i + 1] + ms[i + 1..] == ms;
    assert ms[..i + 1][..i] == ms[..i];
  }

  /** A match's number is one more than the matches of its kind before it. */
  function NumberOf(r: seq<Match>, i: nat): nat
    requires i < |r|
  {
    |ByKind(r[..i], r[i].kind)| + 1
  }

  lemma NumbersGrow(r: seq<Match>, i: nat, j: nat)
    requires i < j < |r| && r[i].kind == r[j].kind
    ensures NumberOf(r, i) < NumberOf(r, j)
  {
    ByKindAppend(r[..i + 1], r[i + 1..j], r[i].kind);
    assert r[..i + 1] + r[i + 1..j] == r[..j];
    assert r[..i + 1][..i] == r[..i];
  }

  lemma PlaceholderOf(
    text: string, reserved: seq<seq<Span>>, patterns: seq<Pattern>, accept: Accept, i: nat)
    requires ValidScan(text, patterns) && i < |Detected(text, reserved, patterns, accept)|
    ensures var r := Detected(text, reserved, patterns, accept);
            BracketFree(r[i].kind) && r[i].placeholder == Placeholder(r[i].kind, NumberOf(r, i))
  {
    var r := Detected(text, reserved, patterns, accept);
    DetectNumbersEachKind(text, reserved, patterns, accept, r[i].kind);
    PositionInKind(r, i);
    DetectIsGreedy(text, reserved, patterns, accept);
    assert r[i] in r;
    var k :| 0 <= k < |patterns| && r[i].kind == patterns[k].kind;
  }

  /** No two matches share a placeholder. */
  lemma DistinctPlaceholders(
    text: string, reserved: seq<seq<Span>>, patterns: seq<Pattern>, accept: Accept, i: nat, j: nat)
    requires ValidScan(text, patterns) && i < j < |Detected(text, reserved, patterns, accept)|
    ensures var r := Detected(text, reserved, patterns, accept);
            r[i].placeholder != r[j].placeholder
  {
    var r := Detected(text, reserved, patterns, accept);
    PlaceholderOf(text, reserved, patterns, accept, i);
    PlaceholderOf(text, reserved, patterns, accept, j);
    if r[i].kind == r[j].kind {
      NumbersGrow(r, i, j);
    }
    PlaceholderInjective(r[i].kind, NumberOf(r, i), r[j].kind, NumberOf(r, j));
  }

  lemma PlaceholderInjective(k1: string, n1: nat, k2: string, n2: nat)
    ensures Placeholder(k1, n1) == Placeholder(k2, n2) ==> k1 == k2 && n1 == n2
  {
    if Placeholder(k1, n1) == Placeholder(k2, n2) {
      var a, b := Placeholder(k1, n1), Placeholder(k2, n2);
      assert k1 + "_" + Decimal(n1) == a[1..|a| - 1] == b[1..|b| - 1] == k2 + "_" + Decimal(n2);
      NumberedInjective(k1, n1, k2, n2);
    }
  }
}
