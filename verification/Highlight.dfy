/** Search highlighting: which characters of a text the query matched, and the
  * fragments the page renders. `lc` is the text in lower case. */
module Highlight {
  import opened Strings

  datatype Range = Range(start: nat, end: nat)

  /** `found` grows past this size by one range per term at most. */
  const CAP := 200

  function Room(found: seq<Range>): (n: nat)
    ensures n > 0
  {
    if |found| < CAP then CAP + 1 - |found| else 1
  }

  /** The first `n` occurrences of a term, each searched for behind the one before. */
  function Greedy(lc: string, term: string, from: nat, n: nat): (r: seq<Range>)
    ensures |r| <= n
    ensures forall k :: 0 <= k < |r| ==>
      OccursAt(lc, term, r[k].start) && from <= r[k].start && r[k].end == r[k].start + |term|
    decreases n
  {
    if n == 0 then []
    else
      var i := IndexOf(lc, term, from);
      if i == -1 then [] else [Range(i, i + |term|)] + Greedy(lc, term, i + |term|, n - 1)
  }

  /** Everything the two search loops push. */
  function Found(lc: string, terms: seq<string>): (r: seq<Range>)
    ensures forall k :: 0 <= k < |r| ==> r[k].start <= r[k].end <= |lc|
  {
    if terms == [] then []
    else
      var before := Found(lc, terms[..|terms| - 1]);
      before + Greedy(lc, terms[|terms| - 1], 0, Room(before))
  }

  /** Where range `k` is searched from. */
  function SearchedFrom(r: seq<Range>, from: nat, k: nat): nat
    requires k <= |r|
  {
    if k == 0 then from else r[k - 1].end
  }

  /** The range is the first occurrence of the term from a position on. */
  ghost predicate IsFirst(lc: string, term: string, from: nat, r: Range) {
    && OccursAt(lc, term, r.start) && r.end == r.start + |term| && from <= r.start
    && forall j :: from <= j < r.start ==> !OccursAt(lc, term, j)
  }

  /** Each range is the first occurrence of the term behind the range before. */
  ghost predicate Leftmost(lc: string, term: string, from: nat, r: seq<Range>) {
    forall k: nat :: k < |r| ==> IsFirst(lc, term, SearchedFrom(r, from, k), r[k])
  }

  /** No occurrence is left behind the last range. */
  ghost predicate Exhausted(lc: string, term: string, from: nat, r: seq<Range>) {
    forall j :: SearchedFrom(r, from, |r|) <= j ==> !OccursAt(lc, term, j)
  }

  lemma LeftmostCons(lc: string, term: string, from: nat, first: Range, rest: seq<Range>)
    requires IsFirst(lc, term, from, first) && Leftmost(lc, term, first.end, rest)
    ensures Leftmost(lc, term, from, [first] + rest)
    ensures Exhausted(lc, term, first.end, rest) ==> Exhausted(lc, term, from, [first] + rest)
  {
    var r := [first] + rest;
    hide IsFirst, OccursAt;
    forall k: nat | k < |r|
      ensures IsFirst(lc, term, SearchedFrom(r, from, k), r[k])
    {
      if k > 0 {
        assert r[k] == rest[k - 1] && SearchedFrom(r, from, k) == SearchedFrom(rest, first.end, k - 1);
      }
    }
    assert SearchedFrom(r, from, |r|) == SearchedFrom(rest, first.end, |rest|);
  }

  lemma GreedyEnds(lc: string, term: string, from: nat, n: nat)
    ensures Leftmost(lc, term, from, [])
    ensures n == 0 || IndexOf(lc, term, from) == -1 ==> Greedy(lc, term, from, n) == []
    ensures IndexOf(lc, term, from) == -1 ==> Exhausted(lc, term, from, [])
  {
    hide OccursAt;
  }

  lemma FoundFirst(lc: string, term: string, from: nat)
    requires IndexOf(lc, term, from) != -1
    ensures var i := IndexOf(lc, term, from); i >= 0 && IsFirst(lc, term, from, Range(i, i + |term|))
  {
    hide OccursAt;
  }

  lemma {:induction false} GreedyIsLeftmost(lc: string, term: string, from: nat, n: nat)
    ensures var r := Greedy(lc, term, from, n);
            Leftmost(lc, term, from, r) && (|r| < n ==> Exhausted(lc, term, from, r))
    decreases n
  {
    hide *;
    GreedyEnds(lc, term, from, n);
    var i := IndexOf(lc, term, from);
    if n > 0 && i != -1 {
      FoundFirst(lc, term, from);
      GreedyUnfold(lc, term, from, n);
      GreedyIsLeftmost(lc, term, i + |term|, n - 1);
      LeftmostCons(lc, term, from, Range(i, i + |term|), Greedy(lc, term, i + |term|, n - 1));
    }
  }

  /**
   * What one more term adds: its leftmost ranges, all of them, unless the list grows past two hundred; then the
   * range that makes it do so is the last, and a later term adds one range at most.
   */
  lemma OneTermMore(lc: string, terms: seq<string>, term: string)
    ensures Found(lc, []) == []
    ensures var before, after := Found(lc, terms), Found(lc, terms + [term]);
            before <= after
            && var r := after[|before|..];
               && Leftmost(lc, term, 0, r)
               && (|after| > 201 ==> |r| <= 1)
               && (!Exhausted(lc, term, 0, r) ==> |after| == 201 || (|before| > 200 && |r| == 1))
  {
    var before := Found(lc, terms);
    var r := Greedy(lc, term, 0, Room(before));
    assert (terms + [term])[..|terms|] == terms;
    GreedyIsLeftmost(lc, term, 0, Room(before));
    assert Found(lc, terms + [term]) == before + r;
    hide Greedy, Leftmost, Exhausted;
    assert (before + r)[|before|..] == r;
  }

  ghost predicate Covers(ranges: seq<Range>, p: nat) {
    exists k :: 0 <= k < |ranges| && ranges[k].start <= p < ranges[k].end
  }

  /** Strictly apart and in order: the next range starts behind the end of the last. */
  ghost predicate Apart(ranges: seq<Range>) {
    forall i, j :: 0 <= i < j < |ranges| ==> ranges[i].end < ranges[j].start
  }

  ghost predicate Within(ranges: seq<Range>, n: nat) {
    forall k :: 0 <= k < |ranges| ==> ranges[k].start <= ranges[k].end <= n
  }

  // ---- Sorting ----

  function Insert(rs: seq<Range>, r: Range): seq<Range> {
    if rs == [] || rs[|rs| - 1].start <= r.start then rs + [r]
    else Insert(rs[..|rs| - 1], r) + [rs[|rs| - 1]]
  }

  /** `found.sort((a, b) => a[0] - b[0])`. */
  function ByStart(rs: seq<Range>): seq<Range> {
    if rs == [] then [] else Insert(ByStart(rs[..|rs| - 1]), rs[|rs| - 1])
  }

  ghost predicate Ordered(rs: seq<Range>) {
    forall i, j :: 0 <= i < j < |rs| ==> rs[i].start <= rs[j].start
  }

  lemma {:induction false} InsertOrders(rs: seq<Range>, r: Range)
    requires Ordered(rs)
    ensures Ordered(Insert(rs, r))
    ensures forall x :: x in Insert(rs, r) <==> x in rs || x == r
  {
    if rs != [] && rs[|rs| - 1].start > r.start {
      var before, last := rs[..|rs| - 1], rs[|rs| - 1];
      InsertOrders(before, r);
      assert rs == before + [last];
      assert forall x :: x in before ==> x.start <= last.start;
    }
  }

  lemma {:induction false} ByStartOrders(rs: seq<Range>)
    ensures Ordered(ByStart(rs))
    ensures forall x :: x in ByStart(rs) <==> x in rs
  {
    if rs != [] {
      ByStartOrders(rs[..|rs| - 1]);
      InsertOrders(ByStart(rs[..|rs| - 1]), rs[|rs| - 1]);
      assert rs == rs[..|rs| - 1] + [rs[|rs| - 1]];
    }
  }

  /** Coverage only asks which ranges there are. */
  lemma CoversSame(a: seq<Range>, b: seq<Range>)
    requires forall x :: x in a <==> x in b
    ensures forall p: nat :: Covers(a, p) <==> Covers(b, p)
  {
    forall p: nat
      ensures Covers(a, p) <==> Covers(b, p)
    {
      if Covers(a, p) {
        var k :| 0 <= k < |a| && a[k].start <= p < a[k].end;
        assert a[k] in b;
      }
      if Covers(b, p) {
        var k :| 0 <= k < |b| && b[k].start <= p < b[k].end;
        assert b[k] in a;
      }
    }
  }

  // ---- The two loops ----

  /** What the search loop will have pushed when it ends. */
  function Rest(found: seq<Range>, lc: string, term: string, from: nat, room: nat): seq<Range> {
    found + Greedy(lc, term, from, room)
  }

  lemma RestStep(found: seq<Range>, lc: string, term: string, from: nat, room: nat)
    ensures IndexOf(lc, term, from) >= -1
    ensures var i := IndexOf(lc, term, from);
            Rest(found, lc, term, from, room) ==
              if room == 0 || i == -1 then found
              else Rest(found + [Range(i, i + |term|)], lc, term, i + |term|, room - 1)
  {
    hide *;
    RestIs(found, lc, term, from, room);
    GreedyNone(lc, term, from, room);
    var i := IndexOf(lc, term, from);
    if room > 0 && i != -1 {
      GreedyUnfold(lc, term, from, room);
      var r, more := [Range(i, i + |term|)], Greedy(lc, term, i + |term|, room - 1);
      RestIs(found + r, lc, term, i + |term|, room - 1);
      assert found + (r + more) == found + r + more;
    }
  }

  lemma GreedyNone(lc: string, term: string, from: nat, room: nat)
    ensures IndexOf(lc, term, from) >= -1
    ensures room == 0 || IndexOf(lc, term, from) == -1 ==> Greedy(lc, term, from, room) == []
  {
    hide IndexOf, OccursAt;
  }

  lemma FoundStep(lc: string, terms: seq<string>, t: nat)
    requires t < |terms|
    ensures var before := Found(lc, terms[..t]);
            Found(lc, terms[..t + 1]) == before + Greedy(lc, terms[t], 0, Room(before))
  {
    assert terms[..t + 1][..t] == terms[..t];
  }

  lemma RestIs(found: seq<Range>, lc: string, term: string, from: nat, room: nat)
    ensures Rest(found, lc, term, from, room) == found + Greedy(lc, term, from, room)
  {
  }

  lemma RoomStep(found: seq<Range>, r: Range)
    ensures if |found + [r]| > CAP then Room(found) == 1 else Room(found + [r]) == Room(found) - 1
  {
  }

  /** The search loop for one term. */
  method FindTerm(lc: string, term: string, before: seq<Range>) returns (found: seq<Range>)
    ensures found == before + Greedy(lc, term, 0, Room(before))
  {
    hide *;
    found := before;
    ghost var from: nat, room: nat := 0, Room(before);
    ghost var all := before + Greedy(lc, term, 0, room);
    var i := IndexOf(lc, term, 0);
    RestStep(found, lc, term, 0, room);
    RestIs(found, lc, term, 0, room);
    while i != -1
      invariant i == IndexOf(lc, term, from) && i >= -1 && room == Room(found)
      invariant Rest(found, lc, term, from, room) == all && (i == -1 ==> found == all)
      decreases room
    {
      RestStep(found, lc, term, from, room);
      RoomStep(found, Range(i, i + |term|));
      found := found + [Range(i, i + |term|)];
      from, room := i + |term|, room - 1;
      i := IndexOf(lc, term, i + |term|);
      RestStep(found, lc, term, from, room);
      if |found| > CAP {
        return;
      }
    }
  }

  method FindRanges(lc: string, terms: seq<string>) returns (found: seq<Range>)
    ensures found == Found(lc, terms)
  {
    found := [];
    assert terms[..0] == [] && Found(lc, []) == [];
    hide *;
    for t := 0 to |terms|
      invariant found == Found(lc, terms[..t])
    {
      FoundStep(lc, terms, t);
      found := FindTerm(lc, terms[t], found);
    }
    assert terms[..|terms|] == terms;
  }

  predicate InRange(r: Range, p: nat) {
    r.start <= p < r.end
  }

  lemma CoversOneMore(rs: seq<Range>, r: Range)
    ensures forall p: nat :: Covers(rs + [r], p) <==> Covers(rs, p) || InRange(r, p)
  {
    forall p: nat
      ensures Covers(rs + [r], p) <==> Covers(rs, p) || InRange(r, p)
    {
      var all := rs + [r];
      if Covers(rs, p) {
        var k :| 0 <= k < |rs| && rs[k].start <= p < rs[k].end;
        assert all[k] == rs[k];
      }
      assert all[|rs|] == r;
    }
  }

  /** `last[1] = Math.max(last[1], e)`. */
  function Widened(last: Range, r: Range): Range {
    Range(last.start, if last.end < r.end then r.end else last.end)
  }

  lemma WideningCovers(rs: seq<Range>, last: Range, r: Range)
    requires last.start <= r.start <= last.end
    ensures forall p: nat :: Covers(rs + [Widened(last, r)], p) <==> Covers(rs + [last], p) || InRange(r, p)
  {
    CoversOneMore(rs, last);
    CoversOneMore(rs, Widened(last, r));
    hide Covers;
  }

  ghost predicate NonEmpty(rs: seq<Range>) {
    forall r :: r in rs ==> r.start < r.end
  }

  lemma WideningKeepsApart(before: seq<Range>, last: Range, r: Range, n: nat)
    requires Apart(before + [last]) && Within(before + [last], n)
    requires last.start <= r.start <= last.end && r.start <= r.end <= n
    ensures Apart(before + [Widened(last, r)]) && Within(before + [Widened(last, r)], n)
    ensures NonEmpty(before + [last]) ==> NonEmpty(before + [Widened(last, r)])
  {
    var was, more := before + [last], before + [Widened(last, r)];
    assert forall k :: 0 <= k < |was| ==> more[k].start == was[k].start;
    assert forall k :: 0 <= k < |before| ==> more[k] == was[k];
    assert NonEmpty(was) ==> last in was && forall x :: x in before ==> x in was;
  }

  lemma PushingKeepsApart(rs: seq<Range>, r: Range, n: nat)
    requires rs != [] && Apart(rs) && Within(rs, n) && rs[|rs| - 1].end < r.start && r.start <= r.end <= n
    ensures Apart(rs + [r]) && Within(rs + [r], n)
  {
    forall k | 0 <= k < |rs|
      ensures rs[k].end < r.start
    {
      if k < |rs| - 1 { assert rs[k].end < rs[|rs| - 1].start; }
    }
  }

  /** Ranges that overlap or touch become one. */
  method Merge(sorted: seq<Range>, ghost n: nat) returns (merged: seq<Range>)
    requires sorted != [] && Ordered(sorted) && Within(sorted, n)
    ensures Apart(merged) && Within(merged, n)
    ensures forall p: nat :: Covers(merged, p) <==> Covers(sorted, p)
    ensures NonEmpty(sorted) ==> NonEmpty(merged)
  {
    merged := [sorted[0]];
    assert sorted[..1] == [sorted[0]];
    hide Covers;
    for i := 1 to |sorted|
      invariant merged != [] && merged[|merged| - 1].start <= sorted[i - 1].start
      invariant Apart(merged) && Within(merged, n)
      invariant forall p: nat :: Covers(merged, p) <==> Covers(sorted[..i], p)
      invariant NonEmpty(sorted) ==> NonEmpty(merged)
    {
      var r, before, last := sorted[i], merged[..|merged| - 1], merged[|merged| - 1];
      assert merged == before + [last] && sorted[..i + 1] == sorted[..i] + [r];
      assert sorted[i - 1].start <= r.start <= r.end <= n;
      hide Apart, Within, Ordered;
      CoversOneMore(sorted[..i], r);
      if r.start <= last.end {
        WideningCovers(before, last, r);
        WideningKeepsApart(before, last, r, n);
        merged := before + [Widened(last, r)];
      } else {
        CoversOneMore(merged, r);
        PushingKeepsApart(merged, r, n);
        merged := merged + [r];
      }
    }
    assert sorted[..|sorted|] == sorted;
  }

  method MatchRanges(lc: string, terms: seq<string>) returns (merged: seq<Range>)
    ensures Apart(merged) && Within(merged, |lc|)
    ensures forall p: nat :: Covers(merged, p) <==> Covers(Found(lc, terms), p)
    ensures "" !in terms ==> NonEmpty(merged)
  {
    var found := FindRanges(lc, terms);
    if found == [] {
      return [];
    }
    var sorted := ByStart(found);
    ByStartOrders(found);
    CoversSame(sorted, found);
    assert forall k :: 0 <= k < |sorted| ==> sorted[k] in found;
    merged := Merge(sorted, |lc|);
    if "" !in terms {
      RangesNonEmpty(lc, terms);
    }
  }

  lemma {:induction false} RangesNonEmpty(lc: string, terms: seq<string>)
    requires "" !in terms
    ensures NonEmpty(Found(lc, terms))
  {
    if terms != [] {
      RangesNonEmpty(lc, terms[..|terms| - 1]);
    }
  }

  // ---- What the ranges cover ----

  /** Some occurrence of the term spans position `p`. */
  ghost predicate Matched(lc: string, term: string, p: nat) {
    exists i :: OccursAt(lc, term, i) && i <= p < i + |term|
  }

  ghost predicate SomeMatched(lc: string, terms: seq<string>, p: nat) {
    exists t :: 0 <= t < |terms| && Matched(lc, terms[t], p)
  }

  /** The term ends the way it begins, as "abab" does. */
  predicate Bordered(term: string) {
    exists b :: 0 < b < |term| && term[..b] == term[|term| - b..]
  }

  /** Two overlapping occurrences give the term a border. */
  lemma OverlapIsBorder(lc: string, term: string, i: nat, j: nat)
    requires OccursAt(lc, term, i) && OccursAt(lc, term, j) && i < j < i + |term|
    ensures Bordered(term)
  {
    var b := i + |term| - j;
    var shared := lc[j..j + b];
    assert lc[i..i + |term|][|term| - b..] == shared;
    assert lc[j..j + |term|][..b] == shared;
    assert term[..b] == term[|term| - b..];
  }

  lemma GreedyUnfold(lc: string, term: string, from: nat, n: nat)
    requires n > 0 && IndexOf(lc, term, from) != -1
    ensures var i := IndexOf(lc, term, from);
            i >= from && OccursAt(lc, term, i)
            && Greedy(lc, term, from, n) == [Range(i, i + |term|)] + Greedy(lc, term, i + |term|, n - 1)
  {
    hide IndexOf, OccursAt;
  }

  lemma IndexOfFinds(lc: string, term: string, from: nat, j: nat)
    requires from <= j && OccursAt(lc, term, j)
    ensures 0 <= IndexOf(lc, term, from) <= j
  {
    hide IndexOf, OccursAt;
  }

  /** The loop visits every occurrence of a term without a border. */
  lemma {:induction false} GreedyFindsAll(lc: string, term: string, from: nat, n: nat, j: nat)
    requires term != "" && !Bordered(term)
    requires from <= j && OccursAt(lc, term, j) && |Greedy(lc, term, from, n)| < n
    ensures Range(j, j + |term|) in Greedy(lc, term, from, n)
    decreases n
  {
    hide *;
    IndexOfFinds(lc, term, from, j);
    GreedyUnfold(lc, term, from, n);
    var i := IndexOf(lc, term, from);
    if i < j {
      if j < i + |term| { OverlapIsBorder(lc, term, i, j); }
      GreedyFindsAll(lc, term, i + |term|, n - 1, j);
    }
  }

  lemma {:induction false} FoundIsMatched(lc: string, terms: seq<string>, p: nat)
    requires Covers(Found(lc, terms), p)
    ensures SomeMatched(lc, terms, p)
  {
    if terms != [] {
      var n := |terms| - 1;
      var before, term := Found(lc, terms[..n]), terms[n];
      var found := before + Greedy(lc, term, 0, Room(before));
      var k :| 0 <= k < |found| && found[k].start <= p < found[k].end;
      if k < |before| {
        assert Covers(before, p) by { assert before[k] == found[k]; }
        FoundIsMatched(lc, terms[..n], p);
        var t :| 0 <= t < n && Matched(lc, terms[..n][t], p);
        assert Matched(lc, terms[t], p);
      } else {
        assert OccursAt(lc, term, found[k].start);
        assert Matched(lc, terms[n], p);
      }
    }
  }

  ghost predicate Unbordered(terms: seq<string>) {
    forall t :: t in terms ==> t != "" && !Bordered(t)
  }

  lemma CoversAppend(a: seq<Range>, b: seq<Range>, p: nat)
    ensures Covers(a + b, p) <==> Covers(a, p) || Covers(b, p)
  {
    var all := a + b;
    if Covers(a, p) {
      var k :| 0 <= k < |a| && a[k].start <= p < a[k].end;
      assert all[k] == a[k];
    }
    if Covers(b, p) {
      var k :| 0 <= k < |b| && b[k].start <= p < b[k].end;
      assert all[|a| + k] == b[k];
    }
  }

  lemma MatchedByGreedy(lc: string, term: string, n: nat, p: nat)
    requires term != "" && !Bordered(term) && |Greedy(lc, term, 0, n)| < n && Matched(lc, term, p)
    ensures Covers(Greedy(lc, term, 0, n), p)
  {
    var j :| OccursAt(lc, term, j) && j <= p < j + |term|;
    GreedyFindsAll(lc, term, 0, n, j);
  }

  lemma {:induction false} MatchedIsFound(lc: string, terms: seq<string>, p: nat)
    requires Unbordered(terms) && |Found(lc, terms)| <= CAP && SomeMatched(lc, terms, p)
    ensures Covers(Found(lc, terms), p)
  {
    var n := |terms| - 1;
    var before, term := Found(lc, terms[..n]), terms[n];
    var more := Greedy(lc, term, 0, Room(before));
    assert Found(lc, terms) == before + more;
    assert |more| < Room(before);
    var t :| 0 <= t < |terms| && Matched(lc, terms[t], p);
    CoversAppend(before, more, p);
    assert forall t :: t in terms[..n] ==> t in terms;
    assert Unbordered(terms[..n]);
    hide Found, Greedy, Covers, Matched, Bordered;
    if t < n {
      assert terms[..n][t] == terms[t];
      assert SomeMatched(lc, terms[..n], p);
      MatchedIsFound(lc, terms[..n], p);
    } else {
      MatchedByGreedy(lc, term, Room(before), p);
    }
  }

  /** Below the cap, terms without a border are marked wherever they occur. */
  lemma CoversWhatMatches(lc: string, terms: seq<string>, p: nat)
    requires Unbordered(terms) && |Found(lc, terms)| <= CAP
    ensures Covers(Found(lc, terms), p) <==> SomeMatched(lc, terms, p)
  {
    if Covers(Found(lc, terms), p) { FoundIsMatched(lc, terms, p); }
    if SomeMatched(lc, terms, p) { MatchedIsFound(lc, terms, p); }
  }

  /** On every text below the cap the ranges cover all that the term covers. */
  ghost predicate CoversEverywhere(term: string) {
    forall lc, p: nat :: |Found(lc, [term])| <= CAP && Matched(lc, term, p) ==> Covers(Found(lc, [term]), p)
  }

  /** The term over its own border: the second occurrence starts inside the first. */
  function Doubled(term: string, b: nat): string
    requires 0 < b < |term|
  {
    term + term[b..]
  }

  lemma DoubledHidesItsEnd(term: string, b: nat)
    requires 0 < b < |term| && term[..b] == term[|term| - b..]
    ensures var lc := Doubled(term, b);
            && Found(lc, [term]) == [Range(0, |term|)] && Matched(lc, term, |lc| - 1)
            && !Covers(Found(lc, [term]), |lc| - 1)
  {
    var lc, n := Doubled(term, b), |term|;
    assert |lc| == n + n - b;
    DoubledHoldsTwice(term, b);
    FoundOfOne(lc, term);
    hide *;
    IndexOfNothing(lc, term, n);
    GreedyNone(lc, term, n, CAP);
    IndexOfFinds(lc, term, 0, 0);
    GreedyUnfold(lc, term, 0, CAP + 1);
    assert Found(lc, [term]) == [Range(0, n)];
    MatchedAt(lc, term, n - b, |lc| - 1);
    OneRangeCovers(Range(0, n), |lc| - 1);
  }

  lemma DoubledHoldsTwice(term: string, b: nat)
    requires 0 < b < |term| && term[..b] == term[|term| - b..]
    ensures OccursAt(Doubled(term, b), term, 0) && OccursAt(Doubled(term, b), term, |term| - b)
  {
    var lc, n := Doubled(term, b), |term|;
    var second := n - b;
    assert lc[0..n] == term;
    assert lc[second..second + n] == term by {
      assert lc[second..second + n] == term[n - b..] + term[b..];
      assert term == term[..b] + term[b..];
    }
  }

  lemma FoundOfOne(lc: string, term: string)
    ensures Found(lc, [term]) == Greedy(lc, term, 0, CAP + 1)
  {
    assert [term][..0] == [] && Found(lc, []) == [];
    hide Greedy;
    assert [] + Greedy(lc, term, 0, CAP + 1) == Greedy(lc, term, 0, CAP + 1);
  }

  lemma IndexOfNothing(lc: string, term: string, from: nat)
    requires from + |term| > |lc|
    ensures IndexOf(lc, term, from) == -1
  {
  }

  lemma MatchedAt(lc: string, term: string, i: nat, p: nat)
    requires OccursAt(lc, term, i) && i <= p < i + |term|
    ensures Matched(lc, term, p)
  {
  }

  lemma OneRangeCovers(r: Range, p: nat)
    ensures Covers([r], p) <==> InRange(r, p)
    ensures InRange(r, p) <==> r.start <= p < r.end
  {
    assert [r][0] == r;
  }

  /** "Ranges covered by any term" holds for exactly the terms without a border. */
  lemma CoversEverywhereExactly(term: string)
    requires term != ""
    ensures CoversEverywhere(term) <==> !Bordered(term)
  {
    if Bordered(term) {
      var b :| 0 < b < |term| && term[..b] == term[|term| - b..];
      DoubledHidesItsEnd(term, b);
    } else {
      forall lc, p: nat | |Found(lc, [term])| <= CAP && Matched(lc, term, p)
        ensures Covers(Found(lc, [term]), p)
      {
        assert [term][0] == term;
        assert SomeMatched(lc, [term], p);
        MatchedIsFound(lc, [term], p);
      }
    }
  }

  // ---- The fragments ----

  datatype Part = Text(text: string) | Marked(text: string)

  function Concat(parts: seq<Part>): string {
    if parts == [] then "" else Concat(parts[..|parts| - 1]) + parts[|parts| - 1].text
  }

  function Marks(parts: seq<Part>): seq<string> {
    if parts == [] then []
    else Marks(parts[..|parts| - 1]) + if parts[|parts| - 1].Marked? then [parts[|parts| - 1].text] else []
  }

  function Slices(text: string, ranges: seq<Range>): seq<string>
    requires forall k :: 0 <= k < |ranges| ==> ranges[k].start <= ranges[k].end <= |text|
  {
    seq(|ranges|, k requires 0 <= k < |ranges| => text[ranges[k].start..ranges[k].end])
  }

  lemma OnePartMore(parts: seq<Part>, part: Part)
    ensures Concat(parts + [part]) == Concat(parts) + part.text
    ensures Marks(parts + [part]) == if part.Marked? then Marks(parts) + [part.text] else Marks(parts)
  {
    assert (parts + [part])[..|parts|] == parts;
  }

  lemma RangeAt(text: string, ranges: seq<Range>, i: nat)
    requires i < |ranges| && Apart(ranges) && Within(ranges, |text|)
    ensures ranges[i].start <= ranges[i].end <= |text| && (i > 0 ==> ranges[i - 1].end < ranges[i].start)
    ensures Slices(text, ranges)[..i + 1] == Slices(text, ranges)[..i] + [text[ranges[i].start..ranges[i].end]]
  {
  }

  /** The fragments of one range: what lies before it, and the range itself. */
  function Fragments(text: string, at: nat, r: Range): seq<Part>
    requires at <= r.start <= r.end <= |text|
  {
    (if r.start > at then [Text(text[at..r.start])] else []) + [Marked(text[r.start..r.end])]
  }

  lemma FragmentsStep(parts: seq<Part>, text: string, at: nat, r: Range)
    requires at <= r.start <= r.end <= |text| && Concat(parts) == text[..at]
    ensures Concat(parts + Fragments(text, at, r)) == text[..r.end]
    ensures Marks(parts + Fragments(text, at, r)) == Marks(parts) + [text[r.start..r.end]]
  {
    hide *;
    var gap, mark := Text(text[at..r.start]), Marked(text[r.start..r.end]);
    FragmentsAre(parts, text, at, r);
    PrefixGrows(text, at, r.start);
    PrefixGrows(text, r.start, r.end);
    OnePartMore(parts, gap);
    OnePartMore(parts, mark);
    OnePartMore(parts + [gap], mark);
  }

  lemma PrefixGrows(text: string, i: nat, j: nat)
    requires i <= j <= |text|
    ensures text[..i] + text[i..j] == text[..j]
  {
  }

  lemma FragmentsAre(parts: seq<Part>, text: string, at: nat, r: Range)
    requires at <= r.start <= r.end <= |text|
    ensures r.start > at ==>
      parts + Fragments(text, at, r) == parts + [Text(text[at..r.start])] + [Marked(text[r.start..r.end])]
    ensures r.start == at ==> parts + Fragments(text, at, r) == parts + [Marked(text[r.start..r.end])]
  {
  }

  /** The two pushes of the loop. */
  method Push(parts: seq<Part>, text: string, at: nat, r: Range) returns (more: seq<Part>)
    requires at <= r.start <= r.end <= |text|
    ensures more == parts + Fragments(text, at, r)
  {
    more := parts;
    FragmentsAre(parts, text, at, r);
    hide *;
    if r.start > at {
      more := more + [Text(text[at..r.start])];
    }
    more := more + [Marked(text[r.start..r.end])];
  }

  /** The fragments spell the text, and the marked ones are the ranges, in order. */
  method Render(text: string, ranges: seq<Range>) returns (parts: seq<Part>)
    requires Apart(ranges) && Within(ranges, |text|)
    ensures Concat(parts) == text
    ensures Marks(parts) == Slices(text, ranges)
  {
    ghost var slices := Slices(text, ranges);
    assert |slices| == |ranges|;
    hide *;
    NoParts(text, slices);
    if ranges == [] {
      return [Text(text)];
    }
    parts := [];
    var at := 0;
    for i := 0 to |ranges|
      invariant at == if i == 0 then 0 else ranges[i - 1].end
      invariant at <= |text| && Concat(parts) == text[..at]
      invariant Marks(parts) == slices[..i]
    {
      var r := ranges[i];
      RangeAt(text, ranges, i);
      FragmentsStep(parts, text, at, r);
      parts := Push(parts, text, at, r);
      at := r.end;
    }
    assert slices[..|ranges|] == slices;
    TailStep(parts, text, at);
    if at < |text| {
      parts := parts + [Text(text[at..])];
    }
  }

  lemma NoParts(text: string, slices: seq<string>)
    ensures Concat([]) == text[..0] && Marks([]) == slices[..0]
    ensures Concat([Text(text)]) == text && Marks([Text(text)]) == []
  {
    OnePartMore([], Text(text));
    assert [] + [Text(text)] == [Text(text)];
  }

  lemma TailStep(parts: seq<Part>, text: string, at: nat)
    requires at <= |text| && Concat(parts) == text[..at]
    ensures at < |text| ==>
      Concat(parts + [Text(text[at..])]) == text && Marks(parts + [Text(text[at..])]) == Marks(parts)
    ensures at == |text| ==> Concat(parts) == text
  {
    OnePartMore(parts, Text(text[at..]));
    hide *;
    assert text[..at] + text[at..] == text && text[..|text|] == text;
  }

  // ---- Word starts ----

  predicate IsWordChar(c: char) {
    'a' <= c <= 'z' || '0' <= c <= '9'
  }

  predicate StartsWord(hay: string, i: nat)
    requires i <= |hay|
  {
    i == 0 || !IsWordChar(hay[i - 1])
  }

  method HasWordStart(hay: string, term: string) returns (found: bool)
    ensures found <==> exists i: nat :: OccursAt(hay, term, i) && StartsWord(hay, i)
    ensures forall i: nat :: i <= |hay| ==>
              (StartsWord(hay, i) <==> i == 0 || !('a' <= hay[i - 1] <= 'z' || '0' <= hay[i - 1] <= '9'))
  {
    var i := IndexOf(hay, term, 0);
    while i != -1
      invariant i == -1 || OccursAt(hay, term, i)
      invariant forall j: nat :: OccursAt(hay, term, j) && (i == -1 || j < i) ==> !StartsWord(hay, j)
      decreases if i == -1 then 0 else |hay| + 1 - i
    {
      if i == 0 || !IsWordChar(hay[i - 1]) {
        return true;
      }
      i := IndexOf(hay, term, i + 1);
    }
    found := false;
  }
}
