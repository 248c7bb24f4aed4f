/** `unwrap` and `sentences`: splitting a document without losing or moving a character. */
module Sentences {
  import opened Strings

  /** A newline without a newline next to it: `(?<!\n)\n(?!\n)`. */
  predicate Soft(text: string, i: nat)
    requires i < |text|
  {
    text[i] == '\n' && (i > 0 ==> text[i - 1] != '\n') && (i + 1 < |text| ==> text[i + 1] != '\n')
  }

  /** Soft newlines become spaces; nothing moves. */
  function Unwrap(text: string): (flat: string)
    ensures |flat| == |text|
    ensures forall i :: 0 <= i < |text| ==> flat[i] == if Soft(text, i) then ' ' else text[i]
  {
    seq(|text|, i requires 0 <= i < |text| => if Soft(text, i) then ' ' else text[i])
  }

  /** Every newline has a newline next to it. */
  predicate Paired(flat: string) {
    forall i :: 0 <= i < |flat| ==> !Soft(flat, i)
  }

  /** What is left of the newlines comes in runs of two or more. */
  lemma UnwrapLeavesParagraphBreaks(text: string)
    ensures Paired(Unwrap(text))
  {
    var flat := Unwrap(text);
    forall i | 0 <= i < |flat|
      ensures !Soft(flat, i)
    {
      if text[i] == '\n' && !Soft(text, i) {
        var j := if i > 0 && text[i - 1] == '\n' then i - 1 else i + 1;
        assert text[j] == '\n' && !Soft(text, j);
        assert flat[j] == '\n';
      }
    }
  }

  predicate Terminator(c: char) { c == '.' || c == '!' || c == '?' }

  predicate BodyChar(c: char) { !Terminator(c) && c != '\n' }

  /** Where a run of characters of one class ends: greedy matching of a character class. */
  function RunEnd(flat: string, from: nat, class_: int): (end: nat)
    requires from <= |flat|
    ensures from <= end <= |flat|
    ensures end < |flat| ==> !InClass(flat[end], class_)
    ensures forall i :: from <= i < end ==> InClass(flat[i], class_)
    decreases |flat| - from
  {
    if from < |flat| && InClass(flat[from], class_) then RunEnd(flat, from + 1, class_) else from
  }

  /** 0: `[^.!?\n]`, 1: `[.!?]`, 2: a newline. */
  predicate InClass(c: char, class_: int) {
    if class_ == 0 then BodyChar(c) else if class_ == 1 then Terminator(c) else c == '\n'
  }

  /**
   * Where the match that starts at a body character ends: `[^.!?\n]+` takes the whole run, then `[.!?]+`
   * or `\n{2,}` takes its run, or the text is over. `ScanIsTheEngines` shows that in a text whose newlines
   * are paired this is the match a backtracking engine returns.
   */
  function MatchEnd(flat: string, from: nat): (end: nat)
    requires from < |flat| && BodyChar(flat[from])
    ensures from < end <= |flat|
  {
    var body := RunEnd(flat, from, 0);
    assert body > from;
    if body == |flat| then body
    else RunEnd(flat, body, if Terminator(flat[body]) then 1 else 2)
  }

  // ----- The pattern as a backtracking engine reads it ---------------------------------------------------

  /** `[^.!?\n]+` can take the characters from `from` up to `m`. */
  predicate Body(flat: string, from: nat, m: nat) {
    from < m <= |flat| && forall i :: from <= i < m ==> BodyChar(flat[i])
  }

  /** Branch `k` of `(?:[.!?]+|\n{2,}|$)` can match from `m` up to `end`; `$` also stands before a last newline. */
  predicate Branch(flat: string, k: int, m: nat, end: nat) {
    && m <= end <= |flat|
    && match k
       case 0 => m < end && forall i :: m <= i < end ==> Terminator(flat[i])
       case 1 => m + 2 <= end && forall i :: m <= i < end ==> flat[i] == '\n'
       case 2 => end == m && (m == |flat| || (m == |flat| - 1 && flat[m] == '\n'))
       case _ => false
  }

  /** One way to match: where the body ends, the branch taken, and where it ends. */
  datatype Way = Way(m: nat, k: int, end: nat) {
    predicate Fits(flat: string, from: nat) {
      Body(flat, from, m) && Branch(flat, k, m, end)
    }

    /** The engine tries longer bodies first, then branches in order, then longer ones. */
    predicate Before(other: Way) {
      m > other.m || (m == other.m && (k < other.k || (k == other.k && end > other.end)))
    }
  }

  /** The first way that fits. */
  ghost predicate EngineTakes(flat: string, from: nat, w: Way) {
    w.Fits(flat, from) && forall v: Way :: v.Before(w) ==> !v.Fits(flat, from)
  }

  lemma EngineTakesOne(flat: string, from: nat, v: Way, w: Way)
    requires EngineTakes(flat, from, v) && EngineTakes(flat, from, w)
    ensures v == w
  {
    assert v == w || v.Before(w) || w.Before(v);
  }

  /** In paired text the scan stops exactly where the engine does, at its first try of the body. */
  lemma ScanIsTheEngines(flat: string, from: nat) returns (k: int)
    requires Paired(flat) && from < |flat| && BodyChar(flat[from])
    ensures EngineTakes(flat, from, Way(RunEnd(flat, from, 0), k, MatchEnd(flat, from)))
  {
    var body, end := RunEnd(flat, from, 0), MatchEnd(flat, from);
    k := if body == |flat| then 2 else if Terminator(flat[body]) then 0 else 1;
    assert body > from;
    var before := flat[body - 1];
    assert BodyChar(before);
    if k == 1 {
      assert !Soft(flat, body);
      assert body + 2 <= end;
    }
    forall v: Way | v.Fits(flat, from)
      ensures !v.Before(Way(body, k, end))
    {
      BodyEndsWithRun(flat, from, v.m);
      if v.m == body && v.k == k { BranchEndsWithRun(flat, v.k, body, v.end); }
    }
  }

  lemma BodyEndsWithRun(flat: string, from: nat, m: nat)
    requires Body(flat, from, m)
    ensures m <= RunEnd(flat, from, 0)
  {
    var end := RunEnd(flat, from, 0);
    assert end < |flat| ==> !BodyChar(flat[end]);
  }

  lemma BranchEndsWithRun(flat: string, k: int, m: nat, end: nat)
    requires m <= |flat| && Branch(flat, k, m, end)
    ensures k == 0 ==> end <= RunEnd(flat, m, 1)
    ensures k == 1 ==> end <= RunEnd(flat, m, 2)
    ensures k == 2 ==> end == m
  {
    var stop := RunEnd(flat, m, if k == 0 then 1 else 2);
    assert stop < |flat| && k == 0 ==> !Terminator(flat[stop]);
    assert stop < |flat| && k == 1 ==> flat[stop] != '\n';
  }

  /** No match starts at a terminator or a newline. */
  lemma MatchesStartInBodies(flat: string, from: nat, w: Way)
    requires w.Fits(flat, from)
    ensures from < |flat| && BodyChar(flat[from])
  {
  }

  datatype Span = Span(start: nat, end: nat)

  /** A sentence and its offset in the source. */
  datatype Sentence = Sentence(offset: nat, text: string) {
    function End(): nat { offset + |text| }
  }

  /** The stripped match at its own offset, unless it is blank. */
  function Cut(flat: string, s: Span): seq<Sentence>
    requires s.start <= s.end <= |flat|
  {
    var raw := flat[s.start..s.end];
    if Strip(raw) == "" then [] else [Sentence(s.start + Leading(raw), Strip(raw))]
  }

  /** `finditer` from a position on, each match cut: none starts at a terminator or a newline. */
  function SentencesFrom(flat: string, from: nat): seq<Sentence>
    requires from <= |flat|
    decreases |flat| - from
  {
    if from == |flat| then []
    else if !BodyChar(flat[from]) then SentencesFrom(flat, from + 1)
    else Cut(flat, Span(from, MatchEnd(flat, from))) + SentencesFrom(flat, MatchEnd(flat, from))
  }

  lemma NextSentences(flat: string, from: nat)
    requires from <= |flat|
    ensures from == |flat| ==> SentencesFrom(flat, from) == []
    ensures from < |flat| && !BodyChar(flat[from]) ==> SentencesFrom(flat, from) == SentencesFrom(flat, from + 1)
    ensures from < |flat| && BodyChar(flat[from]) ==>
      SentencesFrom(flat, from)
      == Cut(flat, Span(from, MatchEnd(flat, from))) + SentencesFrom(flat, MatchEnd(flat, from))
  {
  }

  /** What the loop will have appended when it ends. */
  function Rest(out: seq<Sentence>, flat: string, at: nat): seq<Sentence>
    requires at <= |flat|
  {
    out + SentencesFrom(flat, at)
  }

  lemma RestStep(out: seq<Sentence>, flat: string, at: nat)
    requires at <= |flat|
    ensures Rest([], flat, 0) == SentencesFrom(flat, 0)
    ensures at == |flat| ==> Rest(out, flat, at) == out
    ensures at < |flat| && !BodyChar(flat[at]) ==> Rest(out, flat, at) == Rest(out, flat, at + 1)
  {
    NextSentences(flat, at);
    hide SentencesFrom, MatchEnd, Cut, BodyChar;
  }

  lemma RestTurn(out: seq<Sentence>, flat: string, at: nat)
    requires at < |flat| && BodyChar(flat[at])
    ensures var end := MatchEnd(flat, at);
            Rest(out, flat, at) == Rest(out + Cut(flat, Span(at, end)), flat, end)
  {
    NextSentences(flat, at);
    var end := MatchEnd(flat, at);
    var cut, rest := Cut(flat, Span(at, end)), SentencesFrom(flat, end);
    hide SentencesFrom, MatchEnd, Cut, BodyChar;
    assert out + (cut + rest) == out + cut + rest;
  }

  /** The source's loop over the matches, which appends to `out`. */
  method Split(text: string) returns (out: seq<Sentence>)
    ensures out == SentencesFrom(Unwrap(text), 0)
  {
    hide *;
    var flat := Unwrap(text);
    out := [];
    var at := 0;
    RestStep(out, flat, 0);
    while at < |flat|
      invariant at <= |flat| && Rest(out, flat, at) == SentencesFrom(flat, 0)
      decreases |flat| - at
    {
      RestStep(out, flat, at);
      if !BodyChar(flat[at]) {
        at := at + 1;
        continue;
      }
      RestTurn(out, flat, at);
      var end := MatchEnd(flat, at);
      var raw := flat[at..end];
      var stripped := Strip(raw);
      CutIs(flat, Span(at, end));
      if stripped == "" {
        assert out + [] == out;
        at := end;
        continue;
      }
      var offset := at + Leading(raw);
      out := out + [Sentence(offset, stripped)];
      at := end;
    }
    RestStep(out, flat, |flat|);
  }

  lemma CutIs(flat: string, s: Span)
    requires s.start <= s.end <= |flat|
    ensures var raw := flat[s.start..s.end];
            Cut(flat, s) == if Strip(raw) == "" then [] else [Sentence(s.start + Leading(raw), Strip(raw))]
  {
  }

  // ----- Nothing lost, nothing moved -------------------------------------------------------------------

  predicate StandsIn(flat: string, s: Sentence) {
    s.End() <= |flat| && flat[s.offset..s.End()] == s.text
  }

  /** A cut sentence stands where its match does. */
  lemma CutStands(flat: string, s: Span)
    requires s.start <= s.end <= |flat|
    ensures forall x :: x in Cut(flat, s) ==>
      StandsIn(flat, x) && s.start <= x.offset && x.End() <= s.end && x.text != "" && Stripped(x.text)
  {
    hide *;
    CutIs(flat, s);
    StripStands(flat, s.start, s.end);
    var raw := flat[s.start..s.end];
    SentenceStands(flat, Sentence(s.start + Leading(raw), Strip(raw)));
  }

  lemma SentenceStands(flat: string, x: Sentence)
    ensures x.End() == x.offset + |x.text|
    ensures x.offset + |x.text| <= |flat| && flat[x.offset..x.offset + |x.text|] == x.text ==> StandsIn(flat, x)
  {
  }

  /** A cut keeps every character of its match that is not whitespace. */
  lemma CutHolds(flat: string, s: Span, p: nat)
    requires s.start <= p < s.end <= |flat| && !IsSpace(flat[p])
    ensures |Cut(flat, s)| == 1 && Cut(flat, s)[0].offset <= p < Cut(flat, s)[0].End()
  {
    hide *;
    var raw := flat[s.start..s.end];
    CutIs(flat, s);
    StripHolds(raw, p - s.start);
    SentenceEnds(s.start + Leading(raw), Strip(raw));
  }

  lemma StripHolds(raw: string, p: nat)
    requires p < |raw| && !IsSpace(raw[p])
    ensures Leading(raw) <= p < Leading(raw) + |Strip(raw)|
  {
    hide *;
    StripKeeps(raw);
  }

  lemma SentenceEnds(offset: nat, text: string)
    ensures Sentence(offset, text).End() == offset + |text|
  {
  }

  /** Sentences stand in the text, one after the other. */
  ghost predicate InOrder(flat: string, out: seq<Sentence>, from: nat) {
    && (forall i :: 0 <= i < |out| ==>
          StandsIn(flat, out[i]) && from <= out[i].offset && out[i].text != "" && Stripped(out[i].text))
    && (forall i, j :: 0 <= i < j < |out| ==> out[i].End() <= out[j].offset)
  }

  lemma InOrderJoin(flat: string, a: seq<Sentence>, b: seq<Sentence>, from: nat, middle: nat)
    requires InOrder(flat, a, from) && InOrder(flat, b, middle) && from <= middle
    requires forall x :: x in a ==> x.End() <= middle
    ensures InOrder(flat, a + b, from)
  {
    hide StandsIn, Stripped;
  }

  lemma NothingInOrder(flat: string, from: nat)
    ensures InOrder(flat, [], from)
  {
  }

  lemma InOrderEarlier(flat: string, out: seq<Sentence>, from: nat)
    requires from > 0 && InOrder(flat, out, from)
    ensures InOrder(flat, out, from - 1)
  {
    hide StandsIn, Stripped;
  }

  lemma CutInOrder(flat: string, s: Span)
    requires s.start <= s.end <= |flat|
    ensures InOrder(flat, Cut(flat, s), s.start)
  {
    CutStands(flat, s);
    CutAtMostOne(flat, s);
    hide Cut, StandsIn, Stripped;
  }

  lemma {:induction false} SentencesStandInOrder(flat: string, from: nat)
    requires from <= |flat|
    ensures InOrder(flat, SentencesFrom(flat, from), from)
    decreases |flat| - from
  {
    hide *;
    NextSentences(flat, from);
    if from == |flat| {
      NothingInOrder(flat, from);
    } else {
      if !BodyChar(flat[from]) {
        SentencesStandInOrder(flat, from + 1);
        InOrderEarlier(flat, SentencesFrom(flat, from + 1), from + 1);
      } else {
        var end := MatchEnd(flat, from);
        CutStands(flat, Span(from, end));
        SentencesStandInOrder(flat, end);
        CutInOrder(flat, Span(from, end));
        InOrderJoin(flat, Cut(flat, Span(from, end)), SentencesFrom(flat, end), from, end);
      }
    }
  }

  lemma CutAtMostOne(flat: string, s: Span)
    requires s.start <= s.end <= |flat|
    ensures |Cut(flat, s)| <= 1
  {
  }

  /** Where a character that belongs to some sentence is found. */
  lemma {:induction false} SentencesHold(flat: string, from: nat, p: nat) returns (i: nat)
    requires from <= p < |flat| && BodyChar(flat[p]) && !IsSpace(flat[p])
    ensures i < |SentencesFrom(flat, from)|
    ensures SentencesFrom(flat, from)[i].offset <= p < SentencesFrom(flat, from)[i].End()
    decreases |flat| - from
  {
    NextSentences(flat, from);
    hide SentencesFrom, Cut, MatchEnd, IsSpace;
    if !BodyChar(flat[from]) {
      i := SentencesHold(flat, from + 1, p);
    } else {
      var end := MatchEnd(flat, from);
      if p < end {
        CutHolds(flat, Span(from, end), p);
        i := 0;
      } else {
        var j := SentencesHold(flat, end, p);
        i := |Cut(flat, Span(from, end))| + j;
      }
    }
  }

  // ----- The sentences are the matches --------------------------------------------------------------------

  /** A match begins at a character that is no terminator and no newline, behind one that is, or at the front. */
  predicate MatchBegins(flat: string, from: nat) {
    && from < |flat| && flat[from] !in {'.', '!', '?', '\n'}
    && (from > 0 ==> flat[from - 1] in {'.', '!', '?', '\n'})
  }

  /** The sentence of a match: the match stripped, at its own offset. */
  function SentenceOf(flat: string, from: nat): Sentence
    requires MatchBegins(flat, from)
  {
    var raw := flat[from..MatchEnd(flat, from)];
    Sentence(from + Leading(raw), Strip(raw))
  }

  /** A match that begins before another one ends before it. */
  lemma MatchEndsBefore(flat: string, at: nat, from: nat)
    requires at < from && MatchBegins(flat, from) && BodyChar(flat[at])
    ensures MatchEnd(flat, at) <= from
  {
    var body := RunEnd(flat, at, 0);
    assert !BodyChar(flat[from - 1]) && BodyChar(flat[from]);
    assert body <= from - 1;
  }

  /** Behind a match the next one may begin. */
  lemma MatchEndsBehind(flat: string, at: nat)
    requires at < |flat| && BodyChar(flat[at])
    ensures var end := MatchEnd(flat, at); end < |flat| ==> !BodyChar(flat[end - 1])
  {
    var body := RunEnd(flat, at, 0);
    if body < |flat| {
      assert !InClass(flat[body], 0);
      RunHolds(flat, body, if Terminator(flat[body]) then 1 else 2);
    }
  }

  lemma RunHolds(flat: string, from: nat, class_: int)
    requires from < |flat| && InClass(flat[from], class_)
    ensures from < RunEnd(flat, from, class_) && InClass(flat[RunEnd(flat, from, class_) - 1], class_)
  {
  }

  lemma CutIsSentence(flat: string, from: nat)
    requires MatchBegins(flat, from)
    ensures Cut(flat, Span(from, MatchEnd(flat, from)))
         == if SentenceOf(flat, from).text == "" then [] else [SentenceOf(flat, from)]
  {
    hide MatchEnd, Leading, Strip;
  }

  lemma {:induction false} MatchIsFound(flat: string, at: nat, from: nat) returns (i: nat)
    requires at <= from && MatchBegins(flat, from) && SentenceOf(flat, from).text != ""
    ensures i < |SentencesFrom(flat, at)| && SentencesFrom(flat, at)[i] == SentenceOf(flat, from)
    decreases from - at
  {
    hide *;
    BeginsInBody(flat, from);
    NextSentences(flat, at);
    if at == from {
      CutIsSentence(flat, from);
      i := 0;
    } else if !BodyChar(flat[at]) {
      i := MatchIsFound(flat, at + 1, from);
    } else {
      MatchEndsBefore(flat, at, from);
      var j := MatchIsFound(flat, MatchEnd(flat, at), from);
      i := |Cut(flat, Span(at, MatchEnd(flat, at)))| + j;
    }
  }

  lemma BeginsInBody(flat: string, from: nat)
    requires MatchBegins(flat, from)
    ensures from < |flat| && BodyChar(flat[from])
  {
  }

  lemma {:induction false} SentenceIsMatch(flat: string, at: nat, i: nat) returns (from: nat)
    requires at <= |flat| && (0 < at < |flat| ==> !BodyChar(flat[at - 1])) && i < |SentencesFrom(flat, at)|
    ensures MatchBegins(flat, from) && SentencesFrom(flat, at)[i] == SentenceOf(flat, from)
    decreases |flat| - at
  {
    NextSentences(flat, at);
    hide SentencesFrom, Cut, MatchEnd, SentenceOf;
    if !BodyChar(flat[at]) {
      from := SentenceIsMatch(flat, at + 1, i);
    } else {
      var cut := Cut(flat, Span(at, MatchEnd(flat, at)));
      CutIsSentence(flat, at);
      if i < |cut| {
        from := at;
      } else {
        MatchEndsBehind(flat, at);
        from := SentenceIsMatch(flat, MatchEnd(flat, at), i - |cut|);
      }
    }
  }

  ghost predicate IsMatch(flat: string, x: Sentence) {
    exists from: nat :: MatchBegins(flat, from) && x == SentenceOf(flat, from)
  }

  /**
   * The sentences of a text are its matches, stripped: each sentence is one, and each match that is not blank
   * is a sentence. `ScanIsTheEngines` says where a match ends.
   */
  lemma SentencesAreTheMatches(text: string)
    ensures var flat := Unwrap(text); var out := SentencesFrom(flat, 0);
            && (forall x :: x in out ==> IsMatch(flat, x))
            && forall x :: IsMatch(flat, x) && x.text != "" ==> x in out
  {
    var flat := Unwrap(text);
    var out := SentencesFrom(flat, 0);
    forall x | x in out
      ensures IsMatch(flat, x)
    {
      var i :| 0 <= i < |out| && out[i] == x;
      var from := SentenceIsMatch(flat, 0, i);
    }
    forall x | IsMatch(flat, x) && x.text != ""
      ensures x in out
    {
      var from: nat :| MatchBegins(flat, from) && x == SentenceOf(flat, from);
      var i := MatchIsFound(flat, 0, from);
    }
  }

  predicate Holds(s: Sentence, p: nat) { s.offset <= p < s.End() }

  /** Every character that is neither whitespace nor a terminator lies in exactly one sentence. */
  lemma NothingIsLost(text: string, p: nat)
    requires p < |text| && !IsSpace(text[p]) && text[p] !in {'.', '!', '?'}
    ensures var out := SentencesFrom(Unwrap(text), 0);
            exists i :: 0 <= i < |out| && Holds(out[i], p)
                     && forall j :: 0 <= j < |out| && Holds(out[j], p) ==> j == i
  {
    var flat := Unwrap(text);
    assert flat[p] == text[p] by {
      assert IsSpace('\n');
    }
    var out := SentencesFrom(flat, 0);
    SentencesStandInOrder(flat, 0);
    assert IsSpace('\n');
    var i := SentencesHold(flat, 0, p);
    hide SentencesFrom, IsSpace, StandsIn, Stripped;
    OnlyOneHolds(flat, out, i, p);
  }

  lemma OnlyOneHolds(flat: string, out: seq<Sentence>, i: nat, p: nat)
    requires InOrder(flat, out, 0) && i < |out| && Holds(out[i], p)
    ensures forall j :: 0 <= j < |out| && Holds(out[j], p) ==> j == i
  {
    hide StandsIn, Stripped;
  }

  lemma SentenceReads(flat: string, out: seq<Sentence>, i: nat, k: nat)
    requires InOrder(flat, out, 0) && i < |out| && k < |out[i].text|
    ensures out[i].offset + k < |flat| && out[i].text[k] == flat[out[i].offset + k]
  {
    hide Stripped;
    assert StandsIn(flat, out[i]);
    assert out[i].text[k] == flat[out[i].offset..out[i].End()][k];
  }

  lemma UnwrapReads(text: string, q: nat)
    requires q < |Unwrap(text)|
    ensures |Unwrap(text)| == |text|
    ensures var soft := text[q] == '\n' && (q == 0 || text[q - 1] != '\n') && (q + 1 == |text| || text[q + 1] != '\n');
            Unwrap(text)[q] == if soft then ' ' else text[q]
  {
  }

  /** An offset points into the source: a sentence reads there what it reads, but for soft newlines. */
  lemma NothingIsMoved(text: string, i: nat, k: nat)
    requires i < |SentencesFrom(Unwrap(text), 0)| && k < |SentencesFrom(Unwrap(text), 0)[i].text|
    ensures var s := SentencesFrom(Unwrap(text), 0)[i];
            && s.offset + k < |text|
            && var q := s.offset + k;
               var soft := text[q] == '\n' && (q == 0 || text[q - 1] != '\n') && (q + 1 == |text| || text[q + 1] != '\n');
               s.text[k] == if soft then ' ' else text[q]
  {
    hide *;
    var flat := Unwrap(text);
    SentencesStandInOrder(flat, 0);
    SentenceReads(flat, SentencesFrom(flat, 0), i, k);
    UnwrapReads(text, SentencesFrom(flat, 0)[i].offset + k);
  }
}
