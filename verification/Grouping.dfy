/** The command palette's result list: collapsing, bucketing and capping rows. */
module Grouping {

  // Equal findings and fields are counted in one row, rows are bucketed by kind, and each bucket and the whole
  // list are capped.

  datatype Kind = Page | Document | Section | Finding | Field

  const KIND_ORDER := [Page, Document, Section, Finding, Field]

  const TOTAL_CAP := 20

  /** `title` is the lowercased title. */
  datatype Entry = Entry(id: string, kind: Kind, title: string)

  datatype Scored = Scored(entry: Entry, score: real)

  datatype Row = Row(entry: Entry, score: real, also: nat)

  datatype Group = Group(kind: Kind, hits: seq<Row>, more: nat)

  function Cap(kind: Kind): nat {
    match kind
    case Page => 4
    case Document => 6
    case Section => 5
    case Finding => 4
    case Field => 4
  }

  function Key(e: Entry): string {
    match e.kind
    case Finding => "finding:" + e.title
    case Field => "field:" + e.title
    case _ => e.id
  }

  // ---- Collapsing ----

  function Keys(rows: seq<Row>): (keys: seq<string>)
    ensures |keys| == |rows| && forall i :: 0 <= i < |rows| ==> keys[i] == Key(rows[i].entry)
  {
    seq(|rows|, i requires 0 <= i < |rows| => Key(rows[i].entry))
  }

  /** Where a key stands, or -1. */
  function Find(keys: seq<string>, key: string): (r: int)
    ensures -1 <= r < |keys|
    ensures r >= 0 ==> keys[r] == key
    ensures r == -1 <==> key !in keys
  {
    if keys == [] then -1
    else if keys[|keys| - 1] == key then |keys| - 1
    else
      assert keys == keys[..|keys| - 1] + [keys[|keys| - 1]];
      Find(keys[..|keys| - 1], key)
  }

  function Collapse(scored: seq<Scored>): seq<Row> {
    if scored == [] then []
    else Counted(Collapse(scored[..|scored| - 1]), scored[|scored| - 1])
  }

  function Counted(rows: seq<Row>, s: Scored): seq<Row> {
    var i := Find(Keys(rows), Key(s.entry));
    if i >= 0 then rows[i := rows[i].(also := rows[i].also + 1)]
    else rows + [Row(s.entry, s.score, 0)]
  }

  /** How many scored entries share a key. */
  function Sharing(scored: seq<Scored>, key: string): nat {
    if scored == [] then 0
    else Sharing(scored[..|scored| - 1], key) + if Key(scored[|scored| - 1].entry) == key then 1 else 0
  }

  function Weight(rows: seq<Row>): nat {
    if rows == [] then 0 else Weight(rows[..|rows| - 1]) + 1 + rows[|rows| - 1].also
  }

  /** The best entry with this key: the first, as `scored` comes sorted. */
  ghost predicate IsFirst(scored: seq<Scored>, row: Row, n: nat) {
    && n < |scored| && scored[n] == Scored(row.entry, row.score)
    && forall m :: 0 <= m < n ==> Key(scored[m].entry) != Key(row.entry)
  }

  ghost predicate Distinct(keys: seq<string>) {
    forall i, j :: 0 <= i < j < |keys| ==> keys[i] != keys[j]
  }

  /** The row counts the entries with its key and shows the first of them. */
  ghost predicate Counts(scored: seq<Scored>, row: Row) {
    row.also + 1 == Sharing(scored, Key(row.entry)) && exists n :: IsFirst(scored, row, n)
  }

  /** One row per key, each with its own count. */
  ghost predicate Collapsed(scored: seq<Scored>, rows: seq<Row>) {
    && Distinct(Keys(rows))
    && (forall s :: s in scored ==> Key(s.entry) in Keys(rows))
    && forall i :: 0 <= i < |rows| ==> Counts(scored, rows[i])
  }

  lemma {:induction false} WeightOfUpdate(rows: seq<Row>, i: nat, row: Row)
    requires i < |rows|
    ensures Weight(rows[i := row]) + rows[i].also == Weight(rows) + row.also
  {
    var n := |rows| - 1;
    if i < n {
      WeightOfUpdate(rows[..n], i, row);
      assert rows[i := row][..n] == rows[..n][i := row];
    } else {
      assert rows[i := row][..n] == rows[..n];
    }
  }

  lemma {:induction false} SharingNone(scored: seq<Scored>, key: string)
    requires forall s :: s in scored ==> Key(s.entry) != key
    ensures Sharing(scored, key) == 0
  {
    if scored != [] {
      SharingNone(scored[..|scored| - 1], key);
    }
  }

  lemma CountsOneMore(before: seq<Scored>, s: Scored, row: Row)
    requires Counts(before, row)
    ensures Counts(before + [s], if Key(s.entry) == Key(row.entry) then row.(also := row.also + 1) else row)
  {
    var scored := before + [s];
    assert scored[..|before|] == before;
    var n :| IsFirst(before, row, n);
    assert IsFirst(scored, row, n) && IsFirst(scored, row.(also := row.also + 1), n);
  }

  lemma CountsFirst(before: seq<Scored>, s: Scored)
    requires forall b :: b in before ==> Key(b.entry) != Key(s.entry)
    ensures Counts(before + [s], Row(s.entry, s.score, 0))
  {
    var scored := before + [s];
    assert scored[..|before|] == before;
    SharingNone(before, Key(s.entry));
    assert IsFirst(scored, Row(s.entry, s.score, 0), |before|);
  }

  lemma KeysOfUpdate(rows: seq<Row>, i: nat, row: Row)
    requires i < |rows| && row.entry == rows[i].entry
    ensures Keys(rows[i := row]) == Keys(rows)
  {
    hide Key;
  }

  lemma OneRowMore(rows: seq<Row>, row: Row)
    ensures Keys(rows + [row]) == Keys(rows) + [Key(row.entry)] && Weight(rows + [row]) == Weight(rows) + 1 + row.also
  {
    hide Key;
    assert (rows + [row])[..|rows|] == rows;
  }

  lemma CountedIs(rows: seq<Row>, s: Scored)
    ensures var i := Find(Keys(rows), Key(s.entry));
            Counted(rows, s) == if i >= 0 then rows[i := rows[i].(also := rows[i].also + 1)]
                                else rows + [Row(s.entry, s.score, 0)]
  {
    hide Key, Find, Keys;
  }

  lemma KeysOfCounted(rows: seq<Row>, s: Scored) returns (i: int)
    ensures i == Find(Keys(rows), Key(s.entry))
    ensures Keys(Counted(rows, s)) == if i >= 0 then Keys(rows) else Keys(rows) + [Key(s.entry)]
    ensures |Counted(rows, s)| == if i >= 0 then |rows| else |rows| + 1
    ensures Weight(Counted(rows, s)) == Weight(rows) + 1
  {
    hide *;
    i := Find(Keys(rows), Key(s.entry));
    CountedIs(rows, s);
    if i >= 0 {
      KeysOfUpdate(rows, i, rows[i].(also := rows[i].also + 1));
      WeightOfUpdate(rows, i, rows[i].(also := rows[i].also + 1));
    } else {
      OneRowMore(rows, Row(s.entry, s.score, 0));
    }
  }

  lemma DistinctOneMore(keys: seq<string>, key: string)
    requires Distinct(keys)
    ensures Distinct(if Find(keys, key) >= 0 then keys else keys + [key])
  {
  }

  lemma CountedCounts(before: seq<Scored>, rows: seq<Row>, s: Scored, j: nat)
    requires Collapsed(before, rows) && j < |Counted(rows, s)|
    ensures Counts(before + [s], Counted(rows, s)[j])
  {
    var keys, key := Keys(rows), Key(s.entry);
    var i := Find(keys, key);
    if j < |rows| {
      assert keys[j] == key <==> j == i;
      assert Counted(rows, s)[j] == if j == i then rows[j].(also := rows[j].also + 1) else rows[j];
      hide *;
      CountsOneMore(before, s, rows[j]);
    } else {
      assert Counted(rows, s)[j] == Row(s.entry, s.score, 0);
      hide Key, Counts;
      CountsFirst(before, s);
    }
  }

  lemma CountedCollapses(before: seq<Scored>, rows: seq<Row>, s: Scored)
    requires Collapsed(before, rows)
    ensures Collapsed(before + [s], Counted(rows, s))
  {
    var now, keys := Counted(rows, s), Keys(rows);
    var i := KeysOfCounted(rows, s);
    DistinctOneMore(keys, Key(s.entry));
    assert Key(s.entry) in Keys(now) by {
      hide Counted, Key;
      if i >= 0 { assert Key(s.entry) in keys; }
    }
    assert forall b :: b in before ==> Key(b.entry) in keys;
    forall j: nat | j < |now|
      ensures Counts(before + [s], now[j])
    {
      CountedCounts(before, rows, s, j);
    }
    CollapsedOneMore(before, s, now, keys);
  }

  lemma CollapsedOneMore(before: seq<Scored>, s: Scored, now: seq<Row>, keys: seq<string>)
    requires Distinct(Keys(now)) && Key(s.entry) in Keys(now) && keys <= Keys(now)
    requires forall b :: b in before ==> Key(b.entry) in keys
    requires forall j: nat :: j < |now| ==> Counts(before + [s], now[j])
    ensures Collapsed(before + [s], now)
  {
    assert forall k :: k in keys ==> k in Keys(now);
    hide Distinct, Counts, Key;
  }

  lemma CollapseStep(scored: seq<Scored>)
    ensures scored == [] ==> Collapsed(scored, Collapse(scored)) && Weight(Collapse(scored)) == 0
    ensures scored != [] ==>
      Collapse(scored) == Counted(Collapse(scored[..|scored| - 1]), scored[|scored| - 1])
  {
  }

  /** Nothing scored is lost: every entry is counted in exactly one row. */
  lemma {:induction false} CollapseConserves(scored: seq<Scored>)
    ensures Collapsed(scored, Collapse(scored))
    ensures Weight(Collapse(scored)) == |scored|
  {
    hide *;
    CollapseStep(scored);
    if scored != [] {
      var before, s := scored[..|scored| - 1], scored[|scored| - 1];
      CollapseConserves(before);
      CountedCollapses(before, Collapse(before), s);
      var _ := KeysOfCounted(Collapse(before), s);
      assert scored == before + [s];
    }
  }

  /** Only findings of one title, and only fields of one title, share a row; every other entry has its own id's. */
  lemma KeysTell(a: Entry, b: Entry)
    ensures a.kind == b.kind && a.kind in {Finding, Field} ==> (Key(a) == Key(b) <==> a.title == b.title)
    ensures a.kind in {Page, Document, Section} && b.kind in {Page, Document, Section} ==>
              (Key(a) == Key(b) <==> a.id == b.id)
    ensures a.kind == Finding && b.kind == Field ==> Key(a) != Key(b)
    ensures a.kind == Finding && b.kind in {Page, Document, Section} ==> (Key(a) == Key(b) <==> b.id == "finding:" + a.title)
    ensures a.kind == Field && b.kind in {Page, Document, Section} ==> (Key(a) == Key(b) <==> b.id == "field:" + a.title)
  {
    assert ("finding:" + a.title)[8..] == a.title && ("finding:" + b.title)[8..] == b.title;
    assert ("field:" + a.title)[6..] == a.title && ("field:" + b.title)[6..] == b.title;
    assert ("finding:" + a.title)[2] == 'n' && ("field:" + b.title)[2] == 'e';
  }

  /** Rows stand in the order of the first entries they show. */
  ghost predicate InFirstOrder(scored: seq<Scored>, rows: seq<Row>) {
    forall i, j, m: nat, n: nat ::
      0 <= i < j < |rows| && IsFirst(scored, rows[i], m) && IsFirst(scored, rows[j], n) ==> m < n
  }

  /** Another entry changes no row's first. */
  lemma FirstStays(before: seq<Scored>, s: Scored, row: Row, n: nat)
    requires Counts(before, row)
    ensures IsFirst(before + [s], row, n) <==> IsFirst(before, row, n)
  {
    var m: nat :| IsFirst(before, row, m);
    var scored := before + [s];
    assert scored[..|before|] == before && forall k :: 0 <= k < |before| ==> scored[k] == before[k];
    hide Key;
    if IsFirst(scored, row, n) && n == |before| {
      assert Key(scored[m].entry) == Key(row.entry);
    }
  }

  lemma NewRowComesLast(before: seq<Scored>, s: Scored, row: Row, n: nat)
    requires row.entry == s.entry && row.score == s.score && IsFirst(before + [s], row, n)
    requires forall b :: b in before ==> Key(b.entry) != Key(s.entry)
    ensures n == |before|
  {
    var scored := before + [s];
    hide Key;
    assert forall k :: 0 <= k < |before| ==> scored[k] == before[k] && before[k] in before;
  }

  lemma CountedKeepsOrder(before: seq<Scored>, rows: seq<Row>, s: Scored)
    requires Collapsed(before, rows) && InFirstOrder(before, rows)
    ensures InFirstOrder(before + [s], Counted(rows, s))
  {
    var now, found := Counted(rows, s), Find(Keys(rows), Key(s.entry));
    CountedIs(rows, s);
    assert forall b :: b in before ==> Key(b.entry) in Keys(rows);
    assert found < 0 ==> forall b :: b in before ==> Key(b.entry) != Key(s.entry);
    hide Counted, Find, Key;
    forall i, j, m: nat, n: nat |
      0 <= i < j < |now| && IsFirst(before + [s], now[i], m) && IsFirst(before + [s], now[j], n)
      ensures m < n
    {
      assert i < |rows| && SameFirst(now[i], rows[i]);
      assert Counts(before, rows[i]);
      FirstOfSame(before + [s], now[i], rows[i], m);
      FirstStays(before, s, rows[i], m);
      if j < |rows| {
        assert SameFirst(now[j], rows[j]) && Counts(before, rows[j]);
        FirstOfSame(before + [s], now[j], rows[j], n);
        FirstStays(before, s, rows[j], n);
      } else {
        NewRowComesLast(before, s, now[j], n);
      }
    }
  }

  predicate SameFirst(a: Row, b: Row) { a.entry == b.entry && a.score == b.score }

  lemma FirstOfSame(scored: seq<Scored>, a: Row, b: Row, n: nat)
    requires SameFirst(a, b)
    ensures IsFirst(scored, a, n) <==> IsFirst(scored, b, n)
  {
    hide Key;
  }

  lemma {:induction false} RowsKeepOrder(scored: seq<Scored>)
    ensures InFirstOrder(scored, Collapse(scored))
  {
    hide *;
    CollapseStep(scored);
    NothingInOrder(scored);
    if scored != [] {
      var before, s := scored[..|scored| - 1], scored[|scored| - 1];
      RowsKeepOrder(before);
      CollapseConserves(before);
      CountedKeepsOrder(before, Collapse(before), s);
      assert scored == before + [s];
    }
  }

  lemma NothingInOrder(scored: seq<Scored>)
    ensures scored == [] ==> InFirstOrder(scored, Collapse(scored))
  {
  }

  // ---- Buckets ----

  /** Where the rows of one kind stand. */
  function Positions(rows: seq<Row>, kind: Kind): (ps: seq<nat>)
    ensures forall k :: 0 <= k < |ps| ==> ps[k] < |rows| && rows[ps[k]].entry.kind == kind
  {
    if rows == [] then []
    else
      Positions(rows[..|rows| - 1], kind) + if rows[|rows| - 1].entry.kind == kind then [|rows| - 1] else []
  }

  lemma {:induction false} PositionsAreAll(rows: seq<Row>, kind: Kind)
    ensures forall i, j :: 0 <= i < j < |Positions(rows, kind)| ==> Positions(rows, kind)[i] < Positions(rows, kind)[j]
    ensures forall p: nat :: p < |rows| && rows[p].entry.kind == kind ==> p in Positions(rows, kind)
  {
    if rows != [] {
      PositionsAreAll(rows[..|rows| - 1], kind);
    }
  }

  function Picked(rows: seq<Row>, ps: seq<nat>): seq<Row>
    requires forall k :: 0 <= k < |ps| ==> ps[k] < |rows|
  {
    seq(|ps|, k requires 0 <= k < |ps| => rows[ps[k]])
  }

  function OfKind(rows: seq<Row>, kind: Kind): seq<Row> {
    Picked(rows, Positions(rows, kind))
  }

  /** Every row stands in the list of its own kind, in no other, and once. */
  lemma KindsPartition(rows: seq<Row>)
    ensures forall kind, p: nat :: p in Positions(rows, kind) <==> p < |rows| && rows[p].entry.kind == kind
    ensures forall kind, i, j :: 0 <= i < j < |Positions(rows, kind)| ==>
      Positions(rows, kind)[i] < Positions(rows, kind)[j]
    ensures |OfKind(rows, Page)| + |OfKind(rows, Document)| + |OfKind(rows, Section)|
          + |OfKind(rows, Finding)| + |OfKind(rows, Field)| == |rows|
  {
    forall kind
      ensures forall p: nat :: p in Positions(rows, kind) <==> p < |rows| && rows[p].entry.kind == kind
      ensures forall i, j :: 0 <= i < j < |Positions(rows, kind)| ==>
        Positions(rows, kind)[i] < Positions(rows, kind)[j]
    {
      PositionsAreAll(rows, kind);
    }
    KindsAddUp(rows);
  }

  lemma {:induction false} KindsAddUp(rows: seq<Row>)
    ensures |OfKind(rows, Page)| + |OfKind(rows, Document)| + |OfKind(rows, Section)|
          + |OfKind(rows, Finding)| + |OfKind(rows, Field)| == |rows|
  {
    if rows != [] {
      KindsAddUp(rows[..|rows| - 1]);
    }
  }

  // ---- Caps ----

  function Min(a: nat, b: nat): nat {
    if a < b then a else b
  }

  datatype Shown = Shown(groups: seq<Group>, budget: nat)

  /** The groups after the first `k` kinds. */
  function Show(rows: seq<Row>, k: nat): (r: Shown)
    requires k <= |KIND_ORDER|
    ensures r.budget <= TOTAL_CAP && |r.groups| <= k
  {
    if k == 0 then Shown([], TOTAL_CAP)
    else
      var before, kind := Show(rows, k - 1), KIND_ORDER[k - 1];
      var list := OfKind(rows, kind);
      if list == [] || before.budget == 0 then before
      else
        var take := Min(Min(Cap(kind), |list|), before.budget);
        Shown(before.groups + [Group(kind, list[..take], |list| - take)], before.budget - take)
  }

  function GroupHits(scored: seq<Scored>): seq<Group> {
    Show(Collapse(scored), |KIND_ORDER|).groups
  }

  /** Rows shown so far. */
  function Hits(groups: seq<Group>): nat {
    if groups == [] then 0 else Hits(groups[..|groups| - 1]) + |groups[|groups| - 1].hits|
  }

  function CapsBefore(k: nat): nat
    requires k <= |KIND_ORDER|
  {
    if k == 0 then 0 else CapsBefore(k - 1) + Cap(KIND_ORDER[k - 1])
  }

  function Rank(kind: Kind): (r: nat)
    ensures r < |KIND_ORDER| && KIND_ORDER[r] == kind
  {
    match kind
    case Page => 0
    case Document => 1
    case Section => 2
    case Finding => 3
    case Field => 4
  }

  /** A kind's group: at least one of its rows, best first, and the count of the rest. */
  ghost predicate Heads(g: Group, list: seq<Row>) {
    && 0 < |g.hits| && g.hits <= list && |g.hits| + g.more == |list|
    && (if g.kind == Field then |g.hits| <= Cap(Field) else |g.hits| == Min(Cap(g.kind), |list|))
  }

  ghost predicate Has(groups: seq<Group>, kind: Kind) {
    exists i :: 0 <= i < |groups| && groups[i].kind == kind
  }

  ghost predicate AllHead(rows: seq<Row>, k: nat, groups: seq<Group>) {
    forall i :: 0 <= i < |groups| ==> Rank(groups[i].kind) < k && Heads(groups[i], OfKind(rows, groups[i].kind))
  }

  ghost predicate InDisplayOrder(groups: seq<Group>) {
    forall i, j :: 0 <= i < j < |groups| ==> Rank(groups[i].kind) < Rank(groups[j].kind)
  }

  ghost predicate NoneSilenced(rows: seq<Row>, k: nat, groups: seq<Group>) {
    forall kind :: Rank(kind) < k ==> (Has(groups, kind) <==> OfKind(rows, kind) != [])
  }

  /** The groups of the first `k` kinds, in display order, none of them suppressed. */
  ghost predicate Shows(rows: seq<Row>, k: nat, groups: seq<Group>) {
    AllHead(rows, k, groups) && InDisplayOrder(groups) && NoneSilenced(rows, k, groups)
  }

  lemma HitsOneMore(groups: seq<Group>, g: Group)
    ensures Hits(groups + [g]) == Hits(groups) + |g.hits|
  {
    assert (groups + [g])[..|groups|] == groups;
  }

  lemma HasOneMore(groups: seq<Group>, g: Group, kind: Kind)
    ensures Has(groups + [g], kind) <==> Has(groups, kind) || kind == g.kind
  {
    var more := groups + [g];
    assert more[|groups|] == g && forall i :: 0 <= i < |groups| ==> more[i] == groups[i];
  }

  lemma ShowsOneMore(rows: seq<Row>, k: nat, groups: seq<Group>, g: Group)
    requires Shows(rows, k, groups) && Rank(g.kind) == k && Heads(g, OfKind(rows, g.kind))
    ensures Shows(rows, k + 1, groups + [g])
  {
    var more := groups + [g];
    assert OfKind(rows, g.kind) != [];
    assert AllHead(rows, k + 1, more) by {
      hide Heads, OfKind, Rank, Has;
    }
    assert InDisplayOrder(more) by {
      hide Heads, OfKind, Rank, Has;
    }
    assert NoneSilenced(rows, k + 1, more) by {
      hide Heads, OfKind, Rank, Has, AllHead, InDisplayOrder;
      forall kind | Rank(kind) < k + 1
        ensures Has(more, kind) <==> OfKind(rows, kind) != []
      {
        HasOneMore(groups, g, kind);
        if Rank(kind) == k { SameRank(kind, g.kind); }
      }
    }
    hide *;
    ShowsIs(rows, k + 1, more);
  }

  lemma ShowsIs(rows: seq<Row>, k: nat, groups: seq<Group>)
    ensures Shows(rows, k, groups) <==> AllHead(rows, k, groups) && InDisplayOrder(groups) && NoneSilenced(rows, k, groups)
  {
  }

  lemma SameRank(a: Kind, b: Kind)
    requires Rank(a) == Rank(b)
    ensures a == b
  {
  }

  lemma ShowsEmpty(rows: seq<Row>, k: nat, groups: seq<Group>)
    requires Shows(rows, k, groups) && k < |KIND_ORDER| && OfKind(rows, KIND_ORDER[k]) == []
    ensures Shows(rows, k + 1, groups)
  {
    forall kind | Rank(kind) < k + 1
      ensures Has(groups, kind) <==> OfKind(rows, kind) != []
    {
      assert Rank(kind) == k ==> kind == KIND_ORDER[k];
    }
  }

  ghost predicate Complete(rows: seq<Row>, k: nat, r: Shown)
    requires k <= |KIND_ORDER|
  {
    Shows(rows, k, r.groups) && Hits(r.groups) + r.budget == TOTAL_CAP && r.budget + CapsBefore(k) >= TOTAL_CAP
  }

  /** The function of one kind: its group and what is left of the budget. */
  function Taken(kind: Kind, list: seq<Row>, budget: nat): (r: (Group, nat))
    requires list != [] && budget > 0
    ensures |r.0.hits| + r.1 == budget
  {
    var take := Min(Min(Cap(kind), |list|), budget);
    (Group(kind, list[..take], |list| - take), budget - take)
  }

  lemma ShowStep(rows: seq<Row>, k: nat)
    requires k < |KIND_ORDER|
    ensures Rank(KIND_ORDER[k]) == k
    ensures var r := Show(rows, k); var list := OfKind(rows, KIND_ORDER[k]);
            Show(rows, k + 1) ==
              if list == [] || r.budget == 0 then r
              else var taken := Taken(KIND_ORDER[k], list, r.budget); Shown(r.groups + [taken.0], taken.1)
  {
  }

  lemma TakenHeads(k: nat, list: seq<Row>, budget: nat)
    requires k < |KIND_ORDER| && list != [] && budget + CapsBefore(k) >= TOTAL_CAP
    ensures budget > 0
    ensures var (g, left) := Taken(KIND_ORDER[k], list, budget);
            g.kind == KIND_ORDER[k] && Heads(g, list) && left + CapsBefore(k + 1) >= TOTAL_CAP
  {
    CapsFit(k);
  }

  /** One more kind: its group is shown whole up to its cap, or it has no rows. */
  lemma CompleteStep(rows: seq<Row>, k: nat)
    requires k < |KIND_ORDER| && Complete(rows, k, Show(rows, k))
    ensures Complete(rows, k + 1, Show(rows, k + 1))
  {
    var before, kind := Show(rows, k), KIND_ORDER[k];
    var list := OfKind(rows, kind);
    ShowStep(rows, k);
    if list == [] {
      hide OfKind, Show, Shows, Taken, Cap, Hits, Heads, Rank, Has, Min;
      ShowsEmpty(rows, k, before.groups);
    } else {
      hide OfKind, Show, Shows, Taken, Cap, Hits, Heads, CapsBefore, Rank, Has, Min;
      TakenHeads(k, list, before.budget);
      var (g, left) := Taken(kind, list, before.budget);
      HitsOneMore(before.groups, g);
      ShowsOneMore(rows, k, before.groups, g);
    }
  }

  /** The first four caps leave a place for the fifth kind, so the total cap never
    * silences a kind and never trims any group but the last. */
  lemma {:induction false} ShowSuppressesNothing(rows: seq<Row>, k: nat)
    requires k <= |KIND_ORDER|
    ensures Hits(Show(rows, k).groups) + Show(rows, k).budget == TOTAL_CAP
    ensures Show(rows, k).budget + CapsBefore(k) >= TOTAL_CAP
    ensures Shows(rows, k, Show(rows, k).groups)
  {
    hide Show, Shows, Hits, CapsBefore, OfKind;
    if k == 0 {
      NothingShown(rows);
    } else {
      ShowSuppressesNothing(rows, k - 1);
      CompleteStep(rows, k - 1);
    }
  }

  lemma NothingShown(rows: seq<Row>)
    ensures Complete(rows, 0, Show(rows, 0))
  {
    assert Show(rows, 0) == Shown([], TOTAL_CAP) && CapsBefore(0) == 0 && Hits([]) == 0;
    hide OfKind, Heads, Show, Cap;
  }

  /** How many rows the first `k` kinds would show without the total cap. */
  function Wanted(rows: seq<Row>, k: nat): nat
    requires k <= |KIND_ORDER|
  {
    if k == 0 then 0
    else Wanted(rows, k - 1) + Min(Cap(KIND_ORDER[k - 1]), |OfKind(rows, KIND_ORDER[k - 1])|)
  }

  lemma {:induction false} BudgetIsWhatIsLeft(rows: seq<Row>, k: nat)
    requires k <= |KIND_ORDER|
    ensures Show(rows, k).budget == if Wanted(rows, k) >= TOTAL_CAP then 0 else TOTAL_CAP - Wanted(rows, k)
  {
    if k > 0 {
      BudgetIsWhatIsLeft(rows, k - 1);
      hide OfKind, Cap;
    }
  }

  /** How many rows are shown: each kind up to its own cap, all of them up to twenty. */
  lemma TotalShown(rows: seq<Row>)
    ensures var wanted := Min(4, |OfKind(rows, Page)|) + Min(6, |OfKind(rows, Document)|) + Min(5, |OfKind(rows, Section)|)
                          + Min(4, |OfKind(rows, Finding)|) + Min(4, |OfKind(rows, Field)|);
            Hits(Show(rows, 5).groups) == if wanted >= 20 then 20 else wanted
  {
    ShowSuppressesNothing(rows, 5);
    BudgetIsWhatIsLeft(rows, 5);
    WantedIs(rows);
    hide Show, Wanted, OfKind, Shows, Hits, CapsBefore, Min;
  }

  lemma WantedIs(rows: seq<Row>)
    ensures Wanted(rows, 5) == Min(4, |OfKind(rows, Page)|) + Min(6, |OfKind(rows, Document)|)
                             + Min(5, |OfKind(rows, Section)|) + Min(4, |OfKind(rows, Finding)|)
                             + Min(4, |OfKind(rows, Field)|)
  {
    hide OfKind, Min;
    assert Wanted(rows, 0) == 0;
    assert Wanted(rows, 1) == Min(4, |OfKind(rows, Page)|);
    assert Wanted(rows, 2) == Wanted(rows, 1) + Min(6, |OfKind(rows, Document)|);
    assert Wanted(rows, 3) == Wanted(rows, 2) + Min(5, |OfKind(rows, Section)|);
    assert Wanted(rows, 4) == Wanted(rows, 3) + Min(4, |OfKind(rows, Finding)|);
  }

  /** The kinds of the groups, in the order in which the palette shows them. */
  lemma GroupsFollowDisplayOrder(rows: seq<Row>, i: nat, j: nat)
    requires i < j < |Show(rows, 5).groups|
    ensures var a, b := Show(rows, 5).groups[i].kind, Show(rows, 5).groups[j].kind;
            var order := [Page, Document, Section, Finding, Field];
            exists m, n :: 0 <= m < n < 5 && order[m] == a && order[n] == b
  {
    ShowSuppressesNothing(rows, 5);
    var groups := Show(rows, 5).groups;
    hide Show, AllHead, NoneSilenced;
    assert Rank(groups[i].kind) < Rank(groups[j].kind);
  }

  lemma CapsFit(k: nat)
    requires k < |KIND_ORDER|
    ensures CapsBefore(k) < TOTAL_CAP
    ensures KIND_ORDER[k] != Field ==> CapsBefore(k) + Cap(KIND_ORDER[k]) <= TOTAL_CAP
  {
    assert CapsBefore(0) == 0 && CapsBefore(1) == 4 && CapsBefore(2) == 10 && CapsBefore(3) == 15;
    assert CapsBefore(4) == 19;
  }

  /** What the palette shows for any scored list. */
  lemma PaletteIsComplete(scored: seq<Scored>)
    ensures var rows, groups := Collapse(scored), GroupHits(scored);
            && Collapsed(scored, rows) && Weight(rows) == |scored|
            && Shows(rows, |KIND_ORDER|, groups) && Hits(groups) <= TOTAL_CAP
            && forall kind :: OfKind(rows, kind) != [] ==> Has(groups, kind)
  {
    CollapseConserves(scored);
    ShowSuppressesNothing(Collapse(scored), |KIND_ORDER|);
    hide Shows, Collapsed, Has, OfKind, Collapse, Show, Hits, Weight;
    forall kind | OfKind(Collapse(scored), kind) != []
      ensures Has(GroupHits(scored), kind)
    {
      ShownIfAny(Collapse(scored), GroupHits(scored), kind);
    }
  }

  lemma ShownIfAny(rows: seq<Row>, groups: seq<Group>, kind: Kind)
    requires Shows(rows, |KIND_ORDER|, groups) && OfKind(rows, kind) != []
    ensures Has(groups, kind)
  {
  }

  // ---- The two loops of the source ----

  /** The two ways an entry can go. */
  lemma CountedEither(m: map<string, nat>, rows: seq<Row>, s: Scored)
    requires Indexed(m, rows)
    ensures var key := Key(s.entry);
            if key in m
            then m[key] < |rows| && Counted(rows, s) == rows[m[key] := rows[m[key]].(also := rows[m[key]].also + 1)]
            else Counted(rows, s) == rows + [Row(s.entry, s.score, 0)]
  {
    IndexedFinds(m, rows, Key(s.entry));
    hide Key;
  }

  function Pushed(b: map<Kind, seq<nat>>, kind: Kind, p: nat): map<Kind, seq<nat>> {
    b[kind := (if kind in b then b[kind] else []) + [p]]
  }

  lemma NothingIndexed(scored: seq<Scored>)
    ensures Collapse(scored[..0]) == [] && Indexed(map[], []) && Bucketed(map[], [])
    ensures scored[..|scored|] == scored
  {
  }

  /** The collapsing loop: rows live in `rows`, and the two maps hold their positions. */
  method CollapseRows(scored: seq<Scored>) returns (rows: seq<Row>, byKind: map<Kind, seq<nat>>)
    ensures rows == Collapse(scored) && Bucketed(byKind, rows)
  {
    hide *;
    rows, byKind := [], map[];
    var collapsed: map<string, nat> := map[];
    NothingIndexed(scored);
    for n := 0 to |scored|
      invariant rows == Collapse(scored[..n])
      invariant Indexed(collapsed, rows) && Bucketed(byKind, rows)
    {
      var s := scored[n];
      var key := Key(s.entry);
      CollapsePrefix(scored, n);
      CountedEither(collapsed, rows, s);
      if key in collapsed {
        var i := collapsed[key];
        var row := rows[i].(also := rows[i].also + 1);
        SameKinds(collapsed, byKind, rows, i, row);
        rows := rows[i := row];
      } else {
        var row := Row(s.entry, s.score, 0);
        NewRow(collapsed, byKind, rows, row);
        collapsed := collapsed[key := |rows|];
        byKind := Pushed(byKind, s.entry.kind, |rows|);
        rows := rows + [row];
      }
    }
  }

  lemma GroupsAreShown(scored: seq<Scored>, rows: seq<Row>)
    requires rows == Collapse(scored)
    ensures TOTAL_CAP >= 0 && Show(rows, 0) == Shown([], TOTAL_CAP) && GroupHits(scored) == Show(rows, |KIND_ORDER|).groups
  {
  }

  /** One pass of the second loop over a kind with rows, while something may still be shown. */
  lemma GroupTakes(byKind: map<Kind, seq<nat>>, rows: seq<Row>, k: nat, groups: seq<Group>, budget: nat)
    requires Bucketed(byKind, rows) && k < |KIND_ORDER| && Shown(groups, budget) == Show(rows, k)
    requires KIND_ORDER[k] in byKind && byKind[KIND_ORDER[k]] != [] && budget > 0
    ensures var kind := KIND_ORDER[k];
            && (forall j :: 0 <= j < |byKind[kind]| ==> byKind[kind][j] < |rows|)
            && Picked(rows, byKind[kind]) != []
            && var taken := Taken(kind, Picked(rows, byKind[kind]), budget);
               Show(rows, k + 1) == Shown(groups + [taken.0], taken.1)
  {
    hide *;
    ShowStep(rows, k);
    BucketIs(byKind, rows, KIND_ORDER[k]);
  }

  lemma GroupSkips(byKind: map<Kind, seq<nat>>, rows: seq<Row>, k: nat, groups: seq<Group>, budget: nat)
    requires Bucketed(byKind, rows) && k < |KIND_ORDER| && Shown(groups, budget) == Show(rows, k)
    requires KIND_ORDER[k] !in byKind || byKind[KIND_ORDER[k]] == [] || budget == 0
    ensures Show(rows, k + 1) == Shown(groups, budget)
  {
    hide *;
    ShowStep(rows, k);
    BucketIs(byKind, rows, KIND_ORDER[k]);
  }

  /** `groupHits`. */
  method GroupScored(scored: seq<Scored>) returns (groups: seq<Group>)
    ensures groups == GroupHits(scored)
  {
    hide *;
    var rows, byKind := CollapseRows(scored);
    GroupsAreShown(scored, rows);
    groups := [];
    var budget: nat := TOTAL_CAP;
    for k := 0 to |KIND_ORDER|
      invariant Shown(groups, budget) == Show(rows, k)
    {
      var kind := KIND_ORDER[k];
      if kind in byKind && byKind[kind] != [] && budget > 0 {
        GroupTakes(byKind, rows, k, groups, budget);
        var list := Picked(rows, byKind[kind]);
        var taken := Taken(kind, list, budget);
        groups, budget := groups + [taken.0], taken.1;
      } else {
        GroupSkips(byKind, rows, k, groups, budget);
      }
    }
  }

  lemma BucketIs(m: map<Kind, seq<nat>>, rows: seq<Row>, kind: Kind)
    requires Bucketed(m, rows)
    ensures kind in m ==> forall k :: 0 <= k < |m[kind]| ==> m[kind][k] < |rows|
    ensures if kind in m then OfKind(rows, kind) == Picked(rows, m[kind]) && (m[kind] == [] <==> OfKind(rows, kind) == [])
            else OfKind(rows, kind) == []
  {
  }

  /** Every key of a row points at it. */
  ghost predicate Indexed(m: map<string, nat>, rows: seq<Row>) {
    && Distinct(Keys(rows))
    && (forall key :: key in m ==> m[key] < |rows| && Keys(rows)[m[key]] == key)
    && forall i :: 0 <= i < |rows| ==> Keys(rows)[i] in m
  }

  ghost predicate Bucketed(m: map<Kind, seq<nat>>, rows: seq<Row>) {
    forall kind :: Positions(rows, kind) == if kind in m then m[kind] else []
  }

  lemma CollapsePrefix(scored: seq<Scored>, n: nat)
    requires n < |scored|
    ensures Collapse(scored[..n + 1]) == Counted(Collapse(scored[..n]), scored[n])
  {
    assert scored[..n + 1][..n] == scored[..n];
  }

  lemma IndexedFinds(m: map<string, nat>, rows: seq<Row>, key: string)
    requires Indexed(m, rows)
    ensures Find(Keys(rows), key) == if key in m then m[key] else -1
  {
  }

  lemma {:induction false} PositionsOfUpdate(rows: seq<Row>, i: nat, row: Row, kind: Kind)
    requires i < |rows| && row.entry == rows[i].entry
    ensures Positions(rows[i := row], kind) == Positions(rows, kind)
  {
    var n := |rows| - 1;
    if i < n {
      PositionsOfUpdate(rows[..n], i, row, kind);
      assert rows[i := row][..n] == rows[..n][i := row];
    } else {
      assert rows[i := row][..n] == rows[..n];
    }
  }

  lemma SameKinds(m: map<string, nat>, b: map<Kind, seq<nat>>, rows: seq<Row>, i: nat, row: Row)
    requires Indexed(m, rows) && Bucketed(b, rows) && i < |rows| && row.entry == rows[i].entry
    ensures Indexed(m, rows[i := row]) && Bucketed(b, rows[i := row])
  {
    assert Keys(rows[i := row]) == Keys(rows);
    forall kind
      ensures Positions(rows[i := row], kind) == Positions(rows, kind)
    {
      PositionsOfUpdate(rows, i, row, kind);
    }
  }

  lemma NewRow(m: map<string, nat>, b: map<Kind, seq<nat>>, rows: seq<Row>, row: Row)
    requires Indexed(m, rows) && Bucketed(b, rows) && Key(row.entry) !in m
    ensures Indexed(m[Key(row.entry) := |rows|], rows + [row])
    ensures Bucketed(Pushed(b, row.entry.kind, |rows|), rows + [row])
  {
    NewIndex(m, rows, row);
    NewBucket(b, rows, row);
  }

  lemma NewIndex(m: map<string, nat>, rows: seq<Row>, row: Row)
    requires Indexed(m, rows) && Key(row.entry) !in m
    ensures Indexed(m[Key(row.entry) := |rows|], rows + [row])
  {
    assert Keys(rows + [row]) == Keys(rows) + [Key(row.entry)];
    assert |Keys(rows)| == |rows|;
    hide Key, Keys;
  }

  lemma NewBucket(b: map<Kind, seq<nat>>, rows: seq<Row>, row: Row)
    requires Bucketed(b, rows)
    ensures Bucketed(Pushed(b, row.entry.kind, |rows|), rows + [row])
  {
    assert (rows + [row])[..|rows|] == rows;
  }
}
