/** The sliding windows `chunk_text` cuts a text into, and when its loop ends. */
module Windows {
  import opened Strings

  // A window ends behind the last separator in its last fifth, or at its full size, or at the end of the
  // text; the next one starts `overlap` characters before that end. A rule says for every start where the
  // window ends: `RuleFor` is the source's, and `Forward` the one that differs from it only at starts from
  // which the source would not move on. What windows share and rebuild is proved for any rule that moves
  // forward. `Halts` is about the source's own rule: it holds on a text exactly when no start that the loop
  // reaches comes back, and on all texts exactly when the overlap is at most four fifths of the size.

  /** Separators in the order the source tries them. */
  const SEPARATORS: seq<string> := [". ", ".\n", "\n\n", "\n"]

  /** `text.rfind(sep, lo, hi)`. */
  function RFind(text: string, sep: string, lo: nat, hi: nat): (pos: int)
    requires hi <= |text|
    ensures pos == -1 || (lo <= pos && pos + |sep| <= hi && OccursAt(text, sep, pos))
    ensures forall i :: lo <= i && i + |sep| <= hi && OccursAt(text, sep, i) ==> i <= pos
    decreases hi
  {
    if lo + |sep| > hi then -1
    else if text[hi - |sep|..hi] == sep then hi - |sep|
    else if hi == 0 then -1
    else RFind(text, sep, lo, hi - 1)
  }

  /** The end of the last occurrence of the first separator that occurs in the range, or -1. */
  function SentenceEnd(text: string, seps: seq<string>, lo: nat, hi: nat): (end: int)
    requires hi <= |text| && forall i :: 0 <= i < |seps| ==> seps[i] != ""
    ensures end == -1 || lo < end <= hi
  {
    if seps == [] then -1
    else
      var pos := RFind(text, seps[0], lo, hi);
      if pos != -1 then pos + |seps[0]| else SentenceEnd(text, seps[1..], lo, hi)
  }

  /** `int(chunk_size * 0.8)`: how far into a window the search for a sentence end begins. */
  function Reach(size: nat): nat { size * 4 / 5 }

  function WindowEnd(text: string, start: nat, size: nat): (end: nat)
    requires start < |text| && size >= 1
    ensures start < end <= |text| && end - start <= size
    ensures end < |text| ==> end > start + Reach(size)
  {
    if start + size >= |text| then |text|
    else
      var boundary := SentenceEnd(text, SEPARATORS, start + Reach(size), start + size);
      if boundary != -1 then boundary else start + size
  }

  /** The separators after the first `k` decide once these occur nowhere in the range. */
  lemma SentenceEndStep(text: string, seps: seq<string>, k: nat, lo: nat, hi: nat)
    requires hi <= |text| && k < |seps| && forall i :: 0 <= i < |seps| ==> seps[i] != ""
    ensures var pos := RFind(text, seps[k], lo, hi);
            SentenceEnd(text, seps[k..], lo, hi) ==
              if pos != -1 then pos + |seps[k]| else SentenceEnd(text, seps[k + 1..], lo, hi)
  {
    assert seps[k..][1..] == seps[k + 1..];
    hide RFind;
  }

  lemma SentenceEndNone(text: string, seps: seq<string>, lo: nat, hi: nat)
    requires hi <= |text| && forall i :: 0 <= i < |seps| ==> seps[i] != ""
    ensures seps[0..] == seps && SentenceEnd(text, seps[|seps|..], lo, hi) == -1
  {
  }

  /** `for sep in [...]` with its `break`: the end of the first sentence end found, or -1. */
  method FindBoundary(text: string, seps: seq<string>, lo: nat, hi: nat) returns (boundary: int)
    requires hi <= |text| && forall i :: 0 <= i < |seps| ==> seps[i] != ""
    ensures boundary == SentenceEnd(text, seps, lo, hi)
  {
    hide *;
    boundary := -1;
    SentenceEndNone(text, seps, lo, hi);
    for k := 0 to |seps|
      invariant boundary == -1 && SentenceEnd(text, seps, lo, hi) == SentenceEnd(text, seps[k..], lo, hi)
    {
      SentenceEndStep(text, seps, k, lo, hi);
      var pos := RFind(text, seps[k], lo, hi);
      if pos != -1 {
        boundary := pos + |seps[k]|;
        return;
      }
    }
  }

  /** The `if`s around that loop. */
  method FindWindowEnd(text: string, start: nat, size: nat) returns (end: nat)
    requires start < |text| && size >= 1
    ensures end == WindowEnd(text, start, size)
  {
    end := if start + size < |text| then start + size else |text|;
    if end < |text| {
      var boundary := FindBoundary(text, SEPARATORS, start + Reach(size), end);
      hide SentenceEnd, RFind;
      if boundary != -1 {
        end := boundary;
      }
    }
  }

  /** `sep` stands in the range at `i`. */
  predicate InRange(text: string, sep: string, lo: nat, hi: nat, i: int) {
    lo <= i && i + |sep| <= hi && OccursAt(text, sep, i)
  }

  /** `end` is where the last occurrence of separator `k` ends, and no earlier separator occurs. */
  ghost predicate EndsSentence(text: string, seps: seq<string>, lo: nat, hi: nat, k: nat, end: int)
    requires k < |seps|
  {
    && InRange(text, seps[k], lo, hi, end - |seps[k]|)
    && (forall i :: InRange(text, seps[k], lo, hi, i) ==> i + |seps[k]| <= end)
    && (forall j, i :: 0 <= j < k ==> !InRange(text, seps[j], lo, hi, i))
  }

  lemma EndsSentenceLater(text: string, seps: seq<string>, lo: nat, hi: nat, k: nat, end: int)
    requires k < |seps| - 1 && EndsSentence(text, seps[1..], lo, hi, k, end)
    requires forall i :: !InRange(text, seps[0], lo, hi, i)
    ensures EndsSentence(text, seps, lo, hi, k + 1, end)
  {
    hide InRange;
    assert forall j :: 1 <= j < |seps| ==> seps[j] == seps[1..][j - 1];
  }

  lemma EndsSentenceFirst(text: string, seps: seq<string>, lo: nat, hi: nat)
    requires hi <= |text| && seps != [] && seps[0] != ""
    ensures var pos := RFind(text, seps[0], lo, hi);
            if pos != -1 then EndsSentence(text, seps, lo, hi, 0, pos + |seps[0]|)
            else forall i :: !InRange(text, seps[0], lo, hi, i)
  {
    hide RFind, OccursAt;
  }

  lemma {:induction false} SentenceEndIs(text: string, seps: seq<string>, lo: nat, hi: nat)
    requires hi <= |text| && forall i :: 0 <= i < |seps| ==> seps[i] != ""
    ensures var end := SentenceEnd(text, seps, lo, hi);
            if end == -1 then forall j, i :: 0 <= j < |seps| ==> !InRange(text, seps[j], lo, hi, i)
            else exists k :: 0 <= k < |seps| && EndsSentence(text, seps, lo, hi, k, end)
  {
    if seps != [] {
      var end, rest := SentenceEnd(text, seps, lo, hi), seps[1..];
      assert end == if RFind(text, seps[0], lo, hi) != -1 then RFind(text, seps[0], lo, hi) + |seps[0]|
                    else SentenceEnd(text, rest, lo, hi);
      hide *;
      EndsSentenceFirst(text, seps, lo, hi);
      if RFind(text, seps[0], lo, hi) == -1 {
        SentenceEndIs(text, rest, lo, hi);
        assert forall j :: 1 <= j < |seps| ==> seps[j] == rest[j - 1];
        if end != -1 {
          var k :| 0 <= k < |rest| && EndsSentence(text, rest, lo, hi, k, end);
          EndsSentenceLater(text, seps, lo, hi, k, end);
        }
      }
    }
  }

  lemma WindowEndsInRange(text: string, start: nat, size: nat)
    requires size >= 1 && start + size < |text|
    ensures var lo, hi, end := start + Reach(size), start + size, WindowEnd(text, start, size);
            || (exists k :: 0 <= k < |SEPARATORS| && EndsSentence(text, SEPARATORS, lo, hi, k, end))
            || (end == hi && forall j, i :: 0 <= j < |SEPARATORS| ==> !InRange(text, SEPARATORS[j], lo, hi, i))
  {
    SentenceEndIs(text, SEPARATORS, start + Reach(size), start + size);
  }

  /** `sep` stands in the last fifth of the window of `size` characters from `start`. */
  predicate InLastFifth(text: string, sep: string, start: nat, size: nat, i: int) {
    start <= i && 5 * (i + 1 - start) > 4 * size && i + |sep| <= start + size && OccursAt(text, sep, i)
  }

  /** `end` is where the last occurrence of separator `k` in the last fifth ends; no earlier separator stands there. */
  ghost predicate CutBehind(text: string, seps: seq<string>, start: nat, size: nat, k: nat, end: int)
    requires k < |seps|
  {
    && InLastFifth(text, seps[k], start, size, end - |seps[k]|)
    && (forall i :: InLastFifth(text, seps[k], start, size, i) ==> i + |seps[k]| <= end)
    && (forall j, i :: 0 <= j < k ==> !InLastFifth(text, seps[j], start, size, i))
  }

  /** `int(0.8 * size)` is where the last fifth begins. */
  lemma LastFifthIs(text: string, sep: string, start: nat, size: nat, i: int)
    ensures InLastFifth(text, sep, start, size, i) <==> InRange(text, sep, start + Reach(size), start + size, i)
  {
    hide OccursAt;
    assert 5 * Reach(size) <= 4 * size < 5 * (Reach(size) + 1);
  }

  /**
   * A window ends at the end of the text if that is within reach. Otherwise it ends behind the last occurrence
   * of the first separator that stands in its last fifth, or at its full size if none does.
   */
  lemma WindowEndsWithSentence(text: string, start: nat, size: nat)
    requires size >= 1 && start < |text|
    ensures var end, seps := WindowEnd(text, start, size), [". ", ".\n", "\n\n", "\n"];
            if start + size >= |text| then end == |text|
            else
              || (exists k :: 0 <= k < |seps| && CutBehind(text, seps, start, size, k, end))
              || (end == start + size
                  && forall j, i :: 0 <= j < |seps| ==> !InLastFifth(text, seps[j], start, size, i))
  {
    var seps := [". ", ".\n", "\n\n", "\n"];
    var lo, hi, end := start + Reach(size), start + size, WindowEnd(text, start, size);
    if start + size < |text| {
      SentenceEndIs(text, seps, lo, hi);
      assert end == if SentenceEnd(text, seps, lo, hi) != -1 then SentenceEnd(text, seps, lo, hi) else hi;
      hide *;
      forall j, i | 0 <= j < |seps|
        ensures InLastFifth(text, seps[j], start, size, i) <==> InRange(text, seps[j], lo, hi, i)
      {
        LastFifthIs(text, seps[j], start, size, i);
      }
      if k :| 0 <= k < |seps| && EndsSentence(text, seps, lo, hi, k, end) {
        EndsSentenceIs(text, seps, start, size, k, end);
      }
    }
  }

  lemma EndsSentenceIs(text: string, seps: seq<string>, start: nat, size: nat, k: nat, end: int)
    requires k < |seps| && EndsSentence(text, seps, start + Reach(size), start + size, k, end)
    ensures CutBehind(text, seps, start, size, k, end)
  {
    hide InRange, InLastFifth, Reach;
    forall j, i | 0 <= j < |seps|
      ensures InLastFifth(text, seps[j], start, size, i)
         <==> InRange(text, seps[j], start + Reach(size), start + size, i)
    {
      LastFifthIs(text, seps[j], start, size, i);
    }
  }

  // ----- Windows of any rule that moves far enough --------------------------------------------------

  /** For each start in a text, where the window from there ends. */
  type Rule = seq<nat>

  /** Windows are non-empty, in bounds, at most `size` long, and longer than the overlap unless last. */
  ghost predicate Moves(rule: Rule, length: nat, size: nat, overlap: nat) {
    && |rule| == length
    && forall s :: 0 <= s < length ==>
         s < rule[s] <= length && rule[s] - s <= size && (rule[s] < length ==> s + overlap < rule[s])
  }

  function RuleFor(text: string, size: nat): (rule: Rule)
    requires size >= 1
    ensures |rule| == |text|
  {
    seq(|text|, s requires 0 <= s < |text| => WindowEnd(text, s, size))
  }

  lemma RuleIs(text: string, size: nat, start: nat)
    requires size >= 1 && start < |text|
    ensures |RuleFor(text, size)| == |text| && RuleFor(text, size)[start] == WindowEnd(text, start, size)
  {
  }

  lemma SourceRuleMoves(text: string, size: nat, overlap: nat)
    requires size >= 1 && overlap <= Reach(size)
    ensures Moves(RuleFor(text, size), |text|, size, overlap)
  {
  }

  datatype Window = Window(start: nat, end: nat)

  /** Every window of the loop, from one start on. */
  function WindowsFrom(rule: Rule, length: nat, size: nat, overlap: nat, start: nat): (ws: seq<Window>)
    requires Moves(rule, length, size, overlap) && start < length
    ensures ws != [] && ws[0] == Window(start, rule[start])
    decreases length - start
  {
    var end := rule[start];
    [Window(start, end)] + if end >= length then [] else WindowsFrom(rule, length, size, overlap, end - overlap)
  }

  /** The windows after the first. */
  lemma LaterWindows(rule: Rule, length: nat, size: nat, overlap: nat, start: nat) returns (rest: seq<Window>)
    requires Moves(rule, length, size, overlap) && start < length
    ensures rule[start] < length ==>
              start + overlap < rule[start] && rest == WindowsFrom(rule, length, size, overlap, rule[start] - overlap)
    ensures rule[start] >= length ==> rest == []
    ensures WindowsFrom(rule, length, size, overlap, start) == [Window(start, rule[start])] + rest
  {
    rest := if rule[start] >= length then [] else WindowsFrom(rule, length, size, overlap, rule[start] - overlap);
  }

  predicate InBounds(length: nat, w: Window, size: nat) {
    w.start < w.end <= length && w.end - w.start <= size
  }

  /** The next window starts `overlap` characters before this one ends, and both ends move on. */
  predicate Follows(w: Window, next: Window, overlap: nat) {
    next.start + overlap == w.end < next.end && w.start < next.start
  }

  ghost predicate Slides(length: nat, ws: seq<Window>, size: nat, overlap: nat) {
    && (forall i :: 0 <= i < |ws| ==> InBounds(length, ws[i], size))
    && (forall i, j :: 0 <= i && j == i + 1 < |ws| ==> Follows(ws[i], ws[j], overlap))
  }

  lemma {:induction false} LastWindowEndsText(rule: Rule, length: nat, size: nat, overlap: nat, start: nat)
    requires Moves(rule, length, size, overlap) && start < length
    ensures var ws := WindowsFrom(rule, length, size, overlap, start);
            ws[|ws| - 1].end == length
    decreases length - start
  {
    hide WindowsFrom;
    var rest := LaterWindows(rule, length, size, overlap, start);
    if rule[start] < length {
      LastWindowEndsText(rule, length, size, overlap, rule[start] - overlap);
    }
  }

  lemma NextFollows(rule: Rule, length: nat, size: nat, overlap: nat, start: nat)
    requires Moves(rule, length, size, overlap) && start < length && rule[start] < length
    ensures rule[start] >= overlap
    ensures var next := rule[start] - overlap;
            InBounds(length, Window(start, rule[start]), size)
            && Follows(Window(start, rule[start]), Window(next, rule[next]), overlap)
  {
    var next := rule[start] - overlap;
    assert next < rule[next] <= length;
  }

  /** The windows slide over the text. */
  lemma {:induction false} WindowsSlide(rule: Rule, length: nat, size: nat, overlap: nat, start: nat)
    requires Moves(rule, length, size, overlap) && start < length
    ensures Slides(length, WindowsFrom(rule, length, size, overlap, start), size, overlap)
    decreases length - start
  {
    hide WindowsFrom;
    var rest := LaterWindows(rule, length, size, overlap, start);
    if rule[start] < length {
      NextFollows(rule, length, size, overlap, start);
      WindowsSlide(rule, length, size, overlap, rule[start] - overlap);
      SlidesCons(length, Window(start, rule[start]), rest, size, overlap);
    }
  }

  lemma SlidesCons(length: nat, w: Window, rest: seq<Window>, size: nat, overlap: nat)
    requires rest != [] && Slides(length, rest, size, overlap)
    requires InBounds(length, w, size) && Follows(w, rest[0], overlap)
    ensures Slides(length, [w] + rest, size, overlap)
  {
    var ws := [w] + rest;
    forall i, j | 0 <= i && j == i + 1 < |ws|
      ensures Follows(ws[i], ws[j], overlap)
    {
      if i > 0 {
        assert Follows(rest[i - 1], rest[j - 1], overlap);
      }
    }
  }

  /** Every position from the start on lies in some window. */
  lemma {:induction false} SomeWindowHolds(rule: Rule, length: nat, size: nat, overlap: nat, start: nat, p: nat)
    returns (i: nat)
    requires Moves(rule, length, size, overlap) && start <= p < length
    ensures var ws := WindowsFrom(rule, length, size, overlap, start);
            i < |ws| && ws[i].start <= p < ws[i].end
    decreases length - start
  {
    hide WindowsFrom;
    var rest := LaterWindows(rule, length, size, overlap, start);
    if p < rule[start] {
      return 0;
    }
    var j := SomeWindowHolds(rule, length, size, overlap, rule[start] - overlap, p);
    return j + 1;
  }

  predicate AllIn(text: string, ws: seq<Window>) {
    forall i :: 0 <= i < |ws| ==> ws[i].start <= ws[i].end <= |text|
  }

  function Pieces(text: string, ws: seq<Window>): seq<string>
    requires AllIn(text, ws)
  {
    if ws == [] then [] else [text[ws[0].start..ws[0].end]] + Pieces(text, ws[1..])
  }

  function Drop(s: string, n: nat): string { if n <= |s| then s[n..] else "" }

  /** Joins pieces that overlap by `overlap` characters. */
  function Glue(pieces: seq<string>, overlap: nat): string {
    if pieces == [] then ""
    else pieces[0] + Drop(Glue(pieces[1..], overlap), overlap)
  }

  lemma GlueCons(text: string, w: Window, rest: seq<Window>, overlap: nat)
    requires w.start <= w.end <= |text| && overlap <= w.end && AllIn(text, rest)
    requires Glue(Pieces(text, rest), overlap) == text[w.end - overlap..]
    ensures AllIn(text, [w] + rest) && Glue(Pieces(text, [w] + rest), overlap) == text[w.start..]
  {
    var pieces := Pieces(text, [w] + rest);
    assert ([w] + rest)[1..] == rest;
    assert pieces[1..] == Pieces(text, rest);
    assert Drop(text[w.end - overlap..], overlap) == text[w.end..];
    assert text[w.start..w.end] + text[w.end..] == text[w.start..];
  }

  lemma GlueLast(text: string, start: nat, overlap: nat)
    requires start <= |text|
    ensures Glue(Pieces(text, [Window(start, |text|)]), overlap) == text[start..]
  {
    var ws := [Window(start, |text|)];
    assert ws[1..] == [] && text[start..|text|] == text[start..];
    assert Pieces(text, ws[1..]) == [];
    var pieces := Pieces(text, ws);
    assert pieces == [text[start..]] && pieces[1..] == [];
    assert Glue(pieces[1..], overlap) == "";
  }

  lemma WindowsAllIn(text: string, rule: Rule, size: nat, overlap: nat, start: nat)
    requires Moves(rule, |text|, size, overlap) && start < |text|
    ensures AllIn(text, WindowsFrom(rule, |text|, size, overlap, start))
  {
    WindowsSlide(rule, |text|, size, overlap, start);
    var ws := WindowsFrom(rule, |text|, size, overlap, start);
    assert forall i :: 0 <= i < |ws| ==> InBounds(|text|, ws[i], size);
  }

  function Glued(text: string, rule: Rule, size: nat, overlap: nat, start: nat): string
    requires Moves(rule, |text|, size, overlap) && start < |text|
  {
    WindowsAllIn(text, rule, size, overlap, start);
    Glue(Pieces(text, WindowsFrom(rule, |text|, size, overlap, start)), overlap)
  }

  /** Gluing the windows gives back the text they were cut from. */
  lemma {:induction false} WindowsRebuild(text: string, rule: Rule, size: nat, overlap: nat, start: nat)
    requires Moves(rule, |text|, size, overlap) && start < |text|
    ensures Glued(text, rule, size, overlap, start) == text[start..]
    decreases |text| - start
  {
    hide WindowsFrom, Glue, Pieces;
    var rest := LaterWindows(rule, |text|, size, overlap, start);
    if rule[start] < |text| {
      WindowsRebuild(text, rule, size, overlap, rule[start] - overlap);
      WindowsAllIn(text, rule, size, overlap, rule[start] - overlap);
      GlueCons(text, Window(start, rule[start]), rest, overlap);
    } else {
      assert [Window(start, rule[start])] + rest == [Window(start, |text|)];
      GlueLast(text, start, overlap);
    }
  }

  // ----- The source's windows ------------------------------------------------------------------------

  /** The window from this start is the last, or the next one starts later. */
  predicate Advances(rule: Rule, length: nat, overlap: nat, start: nat)
    requires start < length == |rule|
  {
    rule[start] >= length || start + overlap < rule[start]
  }

  /**
   * The source's windows wherever the next start lies further on. From any other start the loop would never
   * end, and this rule takes the whole window; `HaltsIffStartsAdvance` shows that a loop that ends never
   * stands on one.
   */
  function Forward(text: string, size: nat, overlap: nat): (rule: Rule)
    requires overlap < size
    ensures |rule| == |text|
  {
    var source := RuleFor(text, size);
    seq(|text|, s requires 0 <= s < |text| =>
      if Advances(source, |text|, overlap, s) then source[s]
      else if s + size < |text| then s + size else |text|)
  }

  lemma ForwardMoves(text: string, size: nat, overlap: nat)
    requires overlap < size
    ensures Moves(Forward(text, size, overlap), |text|, size, overlap)
  {
  }

  lemma ForwardIsSource(text: string, size: nat, overlap: nat, start: nat)
    requires overlap < size && start < |text| && Advances(RuleFor(text, size), |text|, overlap, start)
    ensures Forward(text, size, overlap)[start] == WindowEnd(text, start, size)
  {
  }

  function TextWindows(text: string, size: nat, overlap: nat): seq<Window>
    requires text != "" && overlap < size
  {
    ForwardMoves(text, size, overlap);
    WindowsFrom(Forward(text, size, overlap), |text|, size, overlap, 0)
  }

  /** At most `size` long, sharing exactly `overlap` characters, and glued back together they are the text. */
  lemma TextWindowsRebuildText(text: string, size: nat, overlap: nat)
    requires text != "" && overlap < size
    ensures var ws := TextWindows(text, size, overlap);
            && ws[0].start == 0 && ws[|ws| - 1].end == |text| && Slides(|text|, ws, size, overlap)
            && AllIn(text, ws) && Glue(Pieces(text, ws), overlap) == text
  {
    ForwardMoves(text, size, overlap);
    var rule := Forward(text, size, overlap);
    assert TextWindows(text, size, overlap) == WindowsFrom(rule, |text|, size, overlap, 0);
    hide Forward, WindowsFrom, TextWindows;
    WindowsSlide(rule, |text|, size, overlap, 0);
    LastWindowEndsText(rule, |text|, size, overlap, 0);
    WindowsAllIn(text, rule, size, overlap, 0);
    WindowsRebuild(text, rule, size, overlap, 0);
  }

  // ----- When the loop ends --------------------------------------------------------------------------

  /** The loop's variable after some iterations; a start before the text is outside what is modelled. */
  datatype LoopState = At(start: nat) | Ended | BeforeText

  function Iterate(rule: Rule, length: nat, overlap: nat, state: LoopState): LoopState
    requires |rule| == length
  {
    if !state.At? then state
    else if state.start >= length || rule[state.start] >= length then Ended
    else if rule[state.start] < overlap then BeforeText
    else At(rule[state.start] - overlap)
  }

  function After(rule: Rule, length: nat, overlap: nat, iterations: nat): LoopState
    requires |rule| == length
  {
    if iterations == 0 then At(0) else Iterate(rule, length, overlap, After(rule, length, overlap, iterations - 1))
  }

  ghost predicate Halts(text: string, size: nat, overlap: nat)
    requires size >= 1
  {
    exists n: nat :: After(RuleFor(text, size), |text|, overlap, n) == Ended
  }

  /** Every iteration moves the start at least one character on. */
  lemma {:induction false} StartsAdvance(rule: Rule, length: nat, size: nat, overlap: nat, n: nat)
    requires Moves(rule, length, size, overlap)
    ensures var s := After(rule, length, overlap, n); s == Ended || (s.At? && s.start >= n)
  {
    if n > 0 {
      StartsAdvance(rule, length, size, overlap, n - 1);
    }
  }

  /** An iteration that changes nothing is repeated for ever. */
  lemma {:induction false} StandsStill(rule: Rule, length: nat, overlap: nat, n: nat)
    requires |rule| == length && Iterate(rule, length, overlap, At(0)) == At(0)
    ensures After(rule, length, overlap, n) == At(0)
  {
    if n > 0 {
      StandsStill(rule, length, overlap, n - 1);
    }
  }

  /** Where the loop stands still or turns back. */
  predicate Turns(rule: Rule, length: nat, overlap: nat, start: nat)
    requires |rule| == length
  {
    start < length && !Advances(rule, length, overlap, start)
  }

  /** Of two ranges, the one further back that still holds the sentence end of the other ends no later. */
  lemma EndsNoLater(text: string, lo: nat, hi: nat, lo': nat, hi': nat, k: nat, e: int, k': nat, e': int)
    requires lo' <= lo && hi' <= hi && e <= hi' && k < |SEPARATORS| && k' < |SEPARATORS|
    requires EndsSentence(text, SEPARATORS, lo, hi, k, e) && EndsSentence(text, SEPARATORS, lo', hi', k', e')
    ensures e' <= e
  {
    hide OccursAt;
    assert InRange(text, SEPARATORS[k], lo', hi', e - |SEPARATORS[k]|);
    assert k' <= k;
    assert 1 <= |SEPARATORS[k]| && |SEPARATORS[k']| <= 2;
    if lo <= e' - |SEPARATORS[k']| {
      assert InRange(text, SEPARATORS[k'], lo, hi, e' - |SEPARATORS[k']|);
    }
  }

  /** A window that ends too early ends with a sentence, and from further back no sentence ends later. */
  lemma TurnsAgain(text: string, size: nat, overlap: nat, s: nat)
    requires overlap < size && s < |text| && WindowEnd(text, s, size) < |text|
    requires overlap <= WindowEnd(text, s, size) <= s + overlap
    ensures var t := WindowEnd(text, s, size) - overlap; t <= s && WindowEnd(text, t, size) <= t + overlap
  {
    hide *;
    var e := WindowEnd(text, s, size);
    var t := e - overlap;
    var lo, lo' := s + Reach(size), t + Reach(size);
    CutBeforeTheEnd(text, s, size);
    var k := SentenceOf(text, s, size, lo, s + size, e);
    StandsInBoth(text, lo, s + size, lo', t + size, k, e);
    SentenceFound(text, t, size, lo', t + size, SEPARATORS[k], e - |SEPARATORS[k]|);
    var e' := WindowEnd(text, t, size);
    var k': nat :| k' < |SEPARATORS| && EndsSentence(text, SEPARATORS, lo', t + size, k', e');
    EndsNoLater(text, lo, s + size, lo', t + size, k, e, k', e');
  }

  lemma CutBeforeTheEnd(text: string, s: nat, size: nat)
    requires size >= 1 && s < |text| && WindowEnd(text, s, size) < |text|
    ensures s + size < |text|
  {
  }

  /** A window shorter than its size ends with a sentence. */
  lemma SentenceOf(text: string, s: nat, size: nat, lo: nat, hi: nat, e: nat) returns (k: nat)
    requires size >= 1 && s + size < |text| && lo == s + Reach(size) && hi == s + size
    requires e == WindowEnd(text, s, size) && e != hi
    ensures k < |SEPARATORS| && EndsSentence(text, SEPARATORS, lo, hi, k, e)
  {
    WindowEndsInRange(text, s, size);
    hide *;
    k :| k < |SEPARATORS| && EndsSentence(text, SEPARATORS, lo, hi, k, e);
  }

  /** A window in whose range a separator stands ends with a sentence. */
  lemma SentenceFound(text: string, s: nat, size: nat, lo: nat, hi: nat, sep: string, i: int)
    requires size >= 1 && s + size < |text| && lo == s + Reach(size) && hi == s + size
    requires sep in SEPARATORS && InRange(text, sep, lo, hi, i)
    ensures exists k :: 0 <= k < |SEPARATORS| && EndsSentence(text, SEPARATORS, lo, hi, k, WindowEnd(text, s, size))
  {
    WindowEndsInRange(text, s, size);
    hide *;
    var j :| 0 <= j < |SEPARATORS| && SEPARATORS[j] == sep;
    assert InRange(text, SEPARATORS[j], lo, hi, i);
  }

  lemma StandsInBoth(text: string, lo: nat, hi: nat, lo': nat, hi': nat, k: nat, e: int)
    requires lo' <= lo && e <= hi' && k < |SEPARATORS| && EndsSentence(text, SEPARATORS, lo, hi, k, e)
    ensures InRange(text, SEPARATORS[k], lo', hi', e - |SEPARATORS[k]|)
  {
    hide OccursAt;
  }

  predicate Turned(text: string, size: nat, overlap: nat, state: LoopState)
    requires size >= 1
  {
    state.At? && Turns(RuleFor(text, size), |text|, overlap, state.start)
  }

  lemma TurnedStays(text: string, size: nat, overlap: nat, state: LoopState)
    requires overlap < size && Turned(text, size, overlap, state)
    ensures var next := Iterate(RuleFor(text, size), |text|, overlap, state);
            next == BeforeText || Turned(text, size, overlap, next)
  {
    hide *;
    TurnedIs(text, size, overlap, state);
    var s := state.start;
    TurnsAt(text, size, overlap, s);
    IterateIs(text, size, overlap, s);
    if overlap <= WindowEnd(text, s, size) {
      TurnsAgain(text, size, overlap, s);
      TurnsAt(text, size, overlap, WindowEnd(text, s, size) - overlap);
      TurnedIs(text, size, overlap, At(WindowEnd(text, s, size) - overlap));
    }
  }

  lemma IterateIs(text: string, size: nat, overlap: nat, s: nat)
    requires size >= 1 && s < |text|
    ensures var end := WindowEnd(text, s, size);
            Iterate(RuleFor(text, size), |text|, overlap, At(s)) ==
              if end >= |text| then Ended else if end < overlap then BeforeText else At(end - overlap)
  {
    RuleIs(text, size, s);
    hide WindowEnd, RuleFor;
  }

  lemma TurnsAt(text: string, size: nat, overlap: nat, s: nat)
    requires size >= 1 && s < |text|
    ensures Turns(RuleFor(text, size), |text|, overlap, s)
       <==> WindowEnd(text, s, size) < |text| && WindowEnd(text, s, size) <= s + overlap
  {
    hide WindowEnd;
  }

  lemma TurnedIs(text: string, size: nat, overlap: nat, state: LoopState)
    requires size >= 1
    ensures Turned(text, size, overlap, state) <==> state.At? && Turns(RuleFor(text, size), |text|, overlap, state.start)
    ensures Turned(text, size, overlap, state) ==> state.start < |text|
  {
    hide RuleFor;
  }

  /** Once the loop has turned it never ends: it keeps turning, or leaves the text at its front. */
  lemma {:induction false} TurnedNeverEnds(text: string, size: nat, overlap: nat, m: nat, n: nat)
    requires overlap < size && m <= n && Turned(text, size, overlap, After(RuleFor(text, size), |text|, overlap, m))
    ensures var state := After(RuleFor(text, size), |text|, overlap, n);
            state == BeforeText || Turned(text, size, overlap, state)
  {
    hide *;
    if m < n {
      TurnedNeverEnds(text, size, overlap, m, n - 1);
      AfterStep(RuleFor(text, size), |text|, overlap, n);
      var state := After(RuleFor(text, size), |text|, overlap, n - 1);
      if state != BeforeText { TurnedStays(text, size, overlap, state); }
    }
  }

  lemma AfterStep(rule: Rule, length: nat, overlap: nat, n: nat)
    requires |rule| == length && n > 0
    ensures After(rule, length, overlap, n) == Iterate(rule, length, overlap, After(rule, length, overlap, n - 1))
    ensures Iterate(rule, length, overlap, BeforeText) == BeforeText
  {
  }

  lemma {:induction false} StaysEnded(rule: Rule, length: nat, overlap: nat, n: nat, m: nat)
    requires |rule| == length && n <= m && After(rule, length, overlap, n) == Ended
    ensures After(rule, length, overlap, m) == Ended
  {
    if n < m { StaysEnded(rule, length, overlap, n, m - 1); }
  }

  /** The loop stands, after these iterations, where the next start does not lie further on. */
  predicate TurnsAfter(text: string, size: nat, overlap: nat, n: nat)
    requires size >= 1
  {
    Turned(text, size, overlap, After(RuleFor(text, size), |text|, overlap, n))
  }

  /** While the loop has only moved on, its start has grown with every iteration. */
  lemma {:induction false} AdvancedThisFar(text: string, size: nat, overlap: nat, n: nat)
    requires size >= 1 && forall m: nat :: m < n ==> !TurnsAfter(text, size, overlap, m)
    ensures var state := After(RuleFor(text, size), |text|, overlap, n);
            state == Ended || (state.At? && state.start >= n)
  {
    if n > 0 {
      AdvancedThisFar(text, size, overlap, n - 1);
      assert !TurnsAfter(text, size, overlap, n - 1);
      hide WindowEnd;
    }
  }

  /** On each text the loop ends if and only if the next start always lies further on. */
  lemma HaltsIffStartsAdvance(text: string, size: nat, overlap: nat)
    requires overlap < size
    ensures Halts(text, size, overlap) <==> forall n: nat :: !TurnsAfter(text, size, overlap, n)
  {
    var rule := RuleFor(text, size);
    if m: nat :| TurnsAfter(text, size, overlap, m) {
      forall n: nat
        ensures After(rule, |text|, overlap, n) != Ended
      {
        if n >= m {
          TurnedNeverEnds(text, size, overlap, m, n);
        } else if After(rule, |text|, overlap, n) == Ended {
          StaysEnded(rule, |text|, overlap, n, m);
        }
      }
    } else {
      AdvancedThisFar(text, size, overlap, |text|);
      assert After(rule, |text|, overlap, |text| + 1) == Ended;
    }
  }

  lemma LoopStarts(text: string, size: nat, overlap: nat)
    requires size >= 1
    ensures After(RuleFor(text, size), |text|, overlap, 0) == At(0)
  {
  }

  /** In a loop that ends, the window is the one `Forward` has, and the next start is reached with it. */
  lemma LoopGoesOn(text: string, size: nat, overlap: nat, n: nat, start: nat)
    requires overlap < size && start < |text| && Halts(text, size, overlap)
    requires After(RuleFor(text, size), |text|, overlap, n) == At(start)
    ensures |Forward(text, size, overlap)| == |text| && Forward(text, size, overlap)[start] == WindowEnd(text, start, size)
    ensures var end := WindowEnd(text, start, size);
            end < |text| ==>
              start + overlap < end && After(RuleFor(text, size), |text|, overlap, n + 1) == At(end - overlap)
  {
    HaltsIffStartsAdvance(text, size, overlap);
    assert !TurnsAfter(text, size, overlap, n);
    RuleIs(text, size, start);
    hide WindowEnd, RuleFor, Halts;
    ForwardIsSource(text, size, overlap, start);
  }

  /** From a start the source's loop reaches, every window ends where the source ends it. */
  lemma {:induction false} LoopWindows(text: string, size: nat, overlap: nat, n: nat, start: nat, i: nat)
    requires overlap < size && start < |text| && Halts(text, size, overlap)
    requires After(RuleFor(text, size), |text|, overlap, n) == At(start)
    requires Moves(Forward(text, size, overlap), |text|, size, overlap)
    requires i < |WindowsFrom(Forward(text, size, overlap), |text|, size, overlap, start)|
    ensures var ws := WindowsFrom(Forward(text, size, overlap), |text|, size, overlap, start);
            ws[i].start < |text| && ws[i].end == WindowEnd(text, ws[i].start, size)
    decreases i
  {
    hide *;
    var rule := Forward(text, size, overlap);
    LoopGoesOn(text, size, overlap, n, start);
    var rest := LaterWindows(rule, |text|, size, overlap, start);
    if i > 0 {
      LoopWindows(text, size, overlap, n + 1, rule[start] - overlap, i - 1);
    }
  }

  /**
   * On a text on which the loop ends, its windows begin at the front, each ends where the source's search ends
   * it and is followed by the one `overlap` characters before that end, and the last one ends the text.
   */
  lemma WindowsFollowTheSource(text: string, size: nat, overlap: nat)
    requires text != "" && overlap < size && Halts(text, size, overlap)
    ensures var ws := TextWindows(text, size, overlap);
            && ws != [] && ws[0].start == 0 && ws[|ws| - 1].end == |text|
            && (forall i :: 0 <= i < |ws| ==> ws[i].start < |text| && ws[i].end == WindowEnd(text, ws[i].start, size))
            && (forall i :: 0 <= i < |ws| - 1 ==> ws[i].end < |text| && ws[i + 1].start == ws[i].end - overlap)
  {
    ForwardMoves(text, size, overlap);
    LoopStarts(text, size, overlap);
    TextWindowsRebuildText(text, size, overlap);
    var ws := TextWindows(text, size, overlap);
    hide Forward, WindowsFrom, RuleFor, Halts, Glue, WindowEnd;
    forall i | 0 <= i < |ws|
      ensures ws[i].start < |text| && ws[i].end == WindowEnd(text, ws[i].start, size)
    {
      LoopWindows(text, size, overlap, 0, 0, i);
    }
    forall i | 0 <= i < |ws| - 1
      ensures ws[i].end < |text| && ws[i + 1].start == ws[i].end - overlap
    {
      assert Follows(ws[i], ws[i + 1], overlap);
    }
  }

  /** Only `a`s but for one newline, placed where a window must end. */
  function Trap(size: nat, overlap: nat): (text: string)
    requires 1 <= overlap < size
    ensures |text| == size + 1
    ensures forall i :: 0 <= i <= size ==> text[i] == if i == overlap - 1 then '\n' else 'a'
  {
    seq(size + 1, i => if i == overlap - 1 then '\n' else 'a')
  }

  lemma OccursPair(text: string, sep: string, i: int)
    requires OccursAt(text, sep, i) && |sep| == 2
    ensures text[i] == sep[0] && text[i + 1] == sep[1]
  {
    assert text[i..i + 2][0] == sep[0] && text[i..i + 2][1] == sep[1];
  }

  lemma NoPair(text: string, sep: string, lo: nat, hi: nat)
    requires |sep| == 2 && hi <= |text|
    requires forall i, j :: 0 <= i && j == i + 1 < |text| ==> !(text[i] == sep[0] && text[j] == sep[1])
    ensures RFind(text, sep, lo, hi) == -1
  {
    var pos := RFind(text, sep, lo, hi);
    if pos != -1 {
      OccursPair(text, sep, pos);
    }
  }

  /** The trap's first window ends right after the newline, `overlap` characters in. */
  lemma TrapEndsAtNewline(size: nat, overlap: nat)
    requires 4 * size < 5 * overlap && overlap < size
    ensures WindowEnd(Trap(size, overlap), 0, size) == overlap
  {
    TrapBoundary(size, overlap, Reach(size));
    hide SentenceEnd, Trap;
  }

  lemma TrapBoundary(size: nat, overlap: nat, lo: nat)
    requires lo < overlap < size
    ensures SentenceEnd(Trap(size, overlap), SEPARATORS, lo, size) == overlap
  {
    var text := Trap(size, overlap);
    assert SEPARATORS[0] == ". " && SEPARATORS[1] == ".\n" && SEPARATORS[2] == "\n\n" && SEPARATORS[3] == "\n";
    assert SEPARATORS[0..] == SEPARATORS;
    hide *;
    NoPair(text, SEPARATORS[0], lo, size);
    NoPair(text, SEPARATORS[1], lo, size);
    NoPair(text, SEPARATORS[2], lo, size);
    TrapNewline(size, overlap, lo);
    SentenceEndStep(text, SEPARATORS, 3, lo, size);
    SentenceEndStep(text, SEPARATORS, 2, lo, size);
    SentenceEndStep(text, SEPARATORS, 1, lo, size);
    SentenceEndStep(text, SEPARATORS, 0, lo, size);
  }

  lemma TrapNewline(size: nat, overlap: nat, lo: nat)
    requires lo < overlap < size
    ensures RFind(Trap(size, overlap), "\n", lo, size) == overlap - 1
  {
    var text := Trap(size, overlap);
    assert text[overlap - 1..overlap] == "\n";
    assert OccursAt(text, "\n", overlap - 1);
    var pos := RFind(text, "\n", lo, size);
    assert text[pos..pos + 1][0] == text[pos];
  }

  /**
   * The loop ends on every text exactly when the overlap is at most four fifths of the size; the source's own
   * guard, `overlap < chunk_size`, is too weak.
   */
  lemma HaltsOnEveryText(size: nat, overlap: nat)
    requires overlap < size
    ensures (forall text: string :: Halts(text, size, overlap)) <==> 5 * overlap <= 4 * size
  {
    if overlap <= Reach(size) {
      forall text: string
        ensures Halts(text, size, overlap)
      {
        var n, rule := |text|, RuleFor(text, size);
        SourceRuleMoves(text, size, overlap);
        StartsAdvance(rule, n, size, overlap, n);
        assert After(rule, n, overlap, n + 1) == Ended;
      }
    } else {
      var text := Trap(size, overlap);
      TrapEndsAtNewline(size, overlap);
      forall n: nat
        ensures After(RuleFor(text, size), |text|, overlap, n) != Ended
      {
        StandsStill(RuleFor(text, size), |text|, overlap, n);
      }
      assert !Halts(text, size, overlap);
    }
  }
}
