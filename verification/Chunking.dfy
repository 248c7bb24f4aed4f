/** `chunk_text` and `chunk_multi_page_document`: what the windows of a document become. */
module Chunking {
  import opened Strings
  import opened Windows
  import opened Wrappers

  /** A chunk's fields at some moment. */
  datatype View = View(chunkId: string, documentId: string, text: string, chunkIndex: nat, page: Option<nat>)

  /** The dataclass, whose index and id the multi-page loop rewrites. */
  class Chunk {
    var chunkId: string
    var documentId: string
    var text: string
    var chunkIndex: nat
    var page: Option<nat>

    constructor (v: View)
      ensures Get() == v
    {
      chunkId, documentId, text, chunkIndex, page := v.chunkId, v.documentId, v.text, v.chunkIndex, v.page;
    }

    function Get(): View
      reads this
    {
      View(chunkId, documentId, text, chunkIndex, page)
    }
  }

  function Views(chunks: seq<Chunk>): (vs: seq<View>)
    reads chunks
    ensures |vs| == |chunks| && forall i :: 0 <= i < |chunks| ==> vs[i] == chunks[i].Get()
  {
    if chunks == [] then [] else Views(chunks[..|chunks| - 1]) + [chunks[|chunks| - 1].Get()]
  }

  function ChunkId(documentId: string, index: nat): string {
    documentId + "_chunk" + "_" + Decimal(index)
  }

  /** What the chunks of one page share. */
  datatype Label = Label(documentId: string, page: Option<nat>)

  function Number(tag: Label, piece: string, index: nat): View {
    View(ChunkId(tag.documentId, index), tag.documentId, piece, index, tag.page)
  }

  /** Chunks numbered from `from` on. */
  function NumberAll(tag: Label, pieces: seq<string>, from: nat): (vs: seq<View>)
    ensures |vs| == |pieces|
  {
    if pieces == [] then []
    else NumberAll(tag, pieces[..|pieces| - 1], from) + [Number(tag, pieces[|pieces| - 1], from + |pieces| - 1)]
  }

  /** A blank piece is dropped. */
  function NonBlank(piece: string): seq<string> { if piece == "" then [] else [piece] }

  /** A window's stripped text, unless it is blank. */
  function Kept(text: string, w: Window): seq<string>
    requires w.start <= w.end <= |text|
  {
    NonBlank(Strip(text[w.start..w.end]))
  }

  function KeptAll(text: string, ws: seq<Window>): seq<string>
    requires AllIn(text, ws)
  {
    if ws == [] then [] else Kept(text, ws[0]) + KeptAll(text, ws[1..])
  }

  /** What the loop emits from a start on: the kept windows, in order. */
  function PiecesFrom(text: string, rule: Rule, size: nat, overlap: nat, start: nat): seq<string>
    requires Moves(rule, |text|, size, overlap) && start < |text|
  {
    WindowsAllIn(text, rule, size, overlap, start);
    KeptAll(text, WindowsFrom(rule, |text|, size, overlap, start))
  }

  lemma KeptCons(text: string, w: Window, rest: seq<Window>)
    requires w.start <= w.end <= |text| && AllIn(text, rest)
    ensures AllIn(text, [w] + rest) && KeptAll(text, [w] + rest) == Kept(text, w) + KeptAll(text, rest)
  {
    assert ([w] + rest)[1..] == rest;
  }

  lemma NothingKept(text: string)
    ensures KeptAll(text, []) == []
  {
  }

  /** One iteration emits its window, if it is kept, and leaves the rest to the next start. */
  lemma PiecesStep(text: string, rule: Rule, size: nat, overlap: nat, start: nat)
    requires Moves(rule, |text|, size, overlap) && start < |text|
    ensures rule[start] <= |text| && (rule[start] < |text| ==> start + overlap < rule[start])
    ensures PiecesFrom(text, rule, size, overlap, start)
         == Kept(text, Window(start, rule[start]))
            + if rule[start] >= |text| then [] else PiecesFrom(text, rule, size, overlap, rule[start] - overlap)
  {
    hide WindowsFrom, KeptAll, Kept;
    var rest := LaterWindows(rule, |text|, size, overlap, start);
    if rule[start] < |text| {
      WindowsAllIn(text, rule, size, overlap, rule[start] - overlap);
    }
    KeptCons(text, Window(start, rule[start]), rest);
    NothingKept(text);
  }

  lemma ViewsSnoc(chunks: seq<Chunk>, c: Chunk)
    ensures Views(chunks + [c]) == Views(chunks) + [c.Get()]
  {
  }

  lemma {:induction false} NumberAllAppend(
    tag: Label, a: seq<string>, b: seq<string>, from: nat)
    ensures NumberAll(tag, a + b, from)
         == NumberAll(tag, a, from) + NumberAll(tag, b, from + |a|)
  {
    if b == [] {
      assert a + b == a;
    } else {
      assert (a + b)[..|a + b| - 1] == a + b[..|b| - 1];
      NumberAllAppend(tag, a, b[..|b| - 1], from);
    }
  }

  lemma {:induction false} NumberAllAt(tag: Label, pieces: seq<string>, from: nat, i: nat)
    requires i < |pieces|
    ensures NumberAll(tag, pieces, from)[i] == Number(tag, pieces[i], from + i)
  {
    if i < |pieces| - 1 {
      NumberAllAt(tag, pieces[..|pieces| - 1], from, i);
    }
  }

  /** Both sizes replace a missing or zero argument by the configured one. */
  datatype Sizes = Sizes(size: nat, overlap: nat) {
    function Or(defaults: Sizes): Sizes {
      Sizes(if size == 0 then defaults.size else size, if overlap == 0 then defaults.overlap else overlap)
    }

    /** `raise ValueError("overlap must be smaller than chunk_size")`. */
    predicate Rejected() { overlap >= size }

    /** `chunk_text` returns: rejected up front, nothing to cut, or a text on which the loop ends. */
    ghost predicate EndsOn(text: string) { Rejected() || Strip(text) == "" || Halts(Strip(text), size, overlap) }
  }

  /** The pieces of a text; on a text on which the loop ends, those the source emits. */
  function PiecesOf(text: string, sizes: Sizes): seq<string>
    requires !sizes.Rejected()
  {
    var body := Strip(text);
    if body == "" then []
    else
      ForwardMoves(body, sizes.size, sizes.overlap);
      PiecesFrom(body, Forward(body, sizes.size, sizes.overlap), sizes.size, sizes.overlap, 0)
  }

  ghost predicate Distinct(chunks: seq<Chunk>) {
    forall i, j :: 0 <= i < j < |chunks| ==> chunks[i] != chunks[j]
  }

  /** `if piece: chunks.append(Chunk(...)); index += 1`. */
  method Append(chunks: seq<Chunk>, tag: Label, piece: string) returns (out: seq<Chunk>)
    requires Distinct(chunks)
    ensures Distinct(out) && forall c :: c in out ==> c in chunks || fresh(c)
    ensures Views(out) == old(Views(chunks)) + NumberAll(tag, NonBlank(piece), |chunks|)
  {
    out := chunks;
    if piece != "" {
      var c := new Chunk(Number(tag, piece, |chunks|));
      out := chunks + [c];
      ViewsSnoc(chunks, c);
    }
  }

  /** The chunks still to come when the loop stands at a start and has emitted `index` of them. */
  function ToCome(
    text: string, rule: Rule, size: nat, overlap: nat, start: nat, tag: Label, index: nat): seq<View>
    requires Moves(rule, |text|, size, overlap) && start < |text|
  {
    NumberAll(tag, PiecesFrom(text, rule, size, overlap, start), index)
  }

  /** An iteration emits the first of them and leaves the rest to come. */
  lemma SlideStep(
    text: string, rule: Rule, size: nat, overlap: nat, start: nat, tag: Label,
    index: nat, end: nat, piece: string)
    returns (emitted: seq<View>, rest: seq<View>)
    requires Moves(rule, |text|, size, overlap) && start < |text| && end == rule[start]
    requires piece == Strip(text[start..end])
    ensures start < end <= |text| && (end < |text| ==> start + overlap < end)
    ensures emitted == NumberAll(tag, NonBlank(piece), index)
    ensures ToCome(text, rule, size, overlap, start, tag, index) == emitted + rest
    ensures if end < |text| then rest == ToCome(text, rule, size, overlap, end - overlap, tag, index + |emitted|)
            else rest == []
  {
    hide NumberAll, PiecesFrom, Strip, Moves;
    PiecesStep(text, rule, size, overlap, start);
    var kept := Kept(text, Window(start, end));
    var later := if end < |text| then PiecesFrom(text, rule, size, overlap, end - overlap) else [];
    NumberAllAppend(tag, kept, later, index);
    emitted, rest := NumberAll(tag, kept, index), NumberAll(tag, later, index + |kept|);
  }

  /** Chunks emitted so far and chunks still to come make up the specified ones. */
  ghost predicate OnTrack(
    text: string, rule: Rule, size: nat, overlap: nat, start: nat, tag: Label, done: seq<View>)
    requires Moves(rule, |text|, size, overlap)
  {
    && start < |text|
    && done + ToCome(text, rule, size, overlap, start, tag, |done|)
       == ToCome(text, rule, size, overlap, 0, tag, 0)
  }

  lemma StartsOnTrack(text: string, rule: Rule, size: nat, overlap: nat, tag: Label)
    requires Moves(rule, |text|, size, overlap) && text != ""
    ensures OnTrack(text, rule, size, overlap, 0, tag, [])
  {
    assert [] + ToCome(text, rule, size, overlap, 0, tag, 0) == ToCome(text, rule, size, overlap, 0, tag, 0);
  }

  lemma NoChunks()
    ensures Views([]) == [] && Distinct([])
  {
  }

  lemma StaysOnTrack(
    text: string, rule: Rule, size: nat, overlap: nat, start: nat, tag: Label,
    done: seq<View>, end: nat, piece: string)
    requires Moves(rule, |text|, size, overlap) && start < |text| && end == rule[start]
    requires OnTrack(text, rule, size, overlap, start, tag, done)
    requires piece == Strip(text[start..end])
    ensures start < end <= |text| && (end < |text| ==> start + overlap < end)
    ensures var now := done + NumberAll(tag, NonBlank(piece), |done|);
            if end < |text| then OnTrack(text, rule, size, overlap, end - overlap, tag, now)
            else now == ToCome(text, rule, size, overlap, 0, tag, 0)
  {
    hide ToCome, NumberAll, Strip, Moves;
    var emitted, rest := SlideStep(text, rule, size, overlap, start, tag, |done|, end, piece);
    var now := done + emitted;
    assert |now| == |done| + |emitted|;
    assert done + (emitted + rest) == now + rest;
  }

  /** The source's while loop over `start`, `end` and `index`, on the stripped text. */
  method Slide(body: string, tag: Label, size: nat, overlap: nat, ghost rule: Rule)
    returns (chunks: seq<Chunk>)
    requires body != "" && overlap < size && Halts(body, size, overlap)
    requires rule == Forward(body, size, overlap) && Moves(rule, |body|, size, overlap)
    ensures Distinct(chunks) && forall c :: c in chunks ==> fresh(c)
    ensures Views(chunks) == ToCome(body, rule, size, overlap, 0, tag, 0)
  {
    hide *;
    chunks := [];
    var start := 0;
    ghost var n: nat := 0;
    LoopStarts(body, size, overlap);
    StartsOnTrack(body, rule, size, overlap, tag);
    NoChunks();
    while start < |body|
      invariant Distinct(chunks) && forall c :: c in chunks ==> fresh(c)
      invariant start < |body| && OnTrack(body, rule, size, overlap, start, tag, Views(chunks))
      invariant After(RuleFor(body, size), |body|, overlap, n) == At(start)
      decreases |body| - start
    {
      var end := FindWindowEnd(body, start, size);
      LoopGoesOn(body, size, overlap, n, start);
      var piece := Strip(body[start..end]);
      StaysOnTrack(body, rule, size, overlap, start, tag, Views(chunks), end, piece);
      chunks := Append(chunks, tag, piece);
      if end >= |body| {
        break;
      }
      start, n := end - overlap, n + 1;
    }
  }

  /** `chunk_text`. */
  method ChunkText(text: string, documentId: string, page: Option<nat>, asked: Sizes, defaults: Sizes)
    returns (r: Result<seq<Chunk>, string>)
    requires asked.Or(defaults).EndsOn(text)
    ensures var size := if asked.size != 0 then asked.size else defaults.size;
            var overlap := if asked.overlap != 0 then asked.overlap else defaults.overlap;
            asked.Or(defaults) == Sizes(size, overlap) && (r.Failure? <==> overlap >= size)
    ensures r.Success? ==> Distinct(r.value) && forall c :: c in r.value ==> fresh(c)
    ensures r.Success? ==>
              Views(r.value) == NumberAll(Label(documentId, page), PiecesOf(text, asked.Or(defaults)), 0)
  {
    var sizes := asked.Or(defaults);
    if sizes.overlap >= sizes.size {
      return Failure("overlap must be smaller than chunk_size");
    }
    var body := Strip(text);
    if body == "" {
      return Success([]);
    }
    ForwardMoves(body, sizes.size, sizes.overlap);
    ghost var rule := Forward(body, sizes.size, sizes.overlap);
    var chunks := Slide(body, Label(documentId, page), sizes.size, sizes.overlap, rule);
    return Success(chunks);
  }

  // ----- What the chunks hold ------------------------------------------------------------------------

  /** `piece` is the slice of the text that starts at `off`. */
  predicate StandsAt(text: string, piece: string, off: nat) {
    off + |piece| <= |text| && text[off..off + |piece|] == piece
  }

  /** A kept window holds every non-whitespace character of the window, in place. */
  lemma KeptHolds(text: string, w: Window, p: nat) returns (off: nat)
    requires w.start <= p < w.end <= |text| && !IsSpace(text[p])
    ensures var piece := Strip(text[w.start..w.end]);
            && Kept(text, w) == [piece] && StandsAt(text, piece, off)
            && w.start <= off <= p < off + |piece| <= w.end
  {
    hide Strip, Leading, IsSpace;
    var raw := text[w.start..w.end];
    StripKeeps(raw);
    assert raw[p - w.start] == text[p];
    off := w.start + Leading(raw);
    SliceOfSlice(text, w.start, w.end, Leading(raw), Leading(raw) + |Strip(raw)|);
  }

  lemma {:induction false} KeptAllHolds(text: string, ws: seq<Window>, k: nat, p: nat) returns (i: nat, off: nat)
    requires AllIn(text, ws) && k < |ws| && ws[k].start <= p < ws[k].end && !IsSpace(text[p])
    ensures i < |KeptAll(text, ws)|
    ensures StandsAt(text, KeptAll(text, ws)[i], off) && off <= p < off + |KeptAll(text, ws)[i]|
    decreases k
  {
    hide Strip;
    var rest := KeptAll(text, ws[1..]);
    if k == 0 {
      off := KeptHolds(text, ws[0], p);
      i := 0;
    } else {
      var j;
      j, off := KeptAllHolds(text, ws[1..], k - 1, p);
      i := |Kept(text, ws[0])| + j;
      assert KeptAll(text, ws)[i] == rest[j];
    }
  }

  lemma BodyPiecesHold(body: string, sizes: Sizes, q: nat) returns (i: nat, off: nat)
    requires !sizes.Rejected() && q < |body| && !IsSpace(body[q])
    ensures Moves(Forward(body, sizes.size, sizes.overlap), |body|, sizes.size, sizes.overlap)
    ensures var pieces := PiecesFrom(body, Forward(body, sizes.size, sizes.overlap), sizes.size, sizes.overlap, 0);
            i < |pieces| && StandsAt(body, pieces[i], off) && off <= q < off + |pieces[i]|
  {
    hide Forward, WindowsFrom, KeptAll, IsSpace;
    ForwardMoves(body, sizes.size, sizes.overlap);
    var rule := Forward(body, sizes.size, sizes.overlap);
    var k := SomeWindowHolds(rule, |body|, sizes.size, sizes.overlap, 0, q);
    WindowsAllIn(body, rule, sizes.size, sizes.overlap, 0);
    i, off := KeptAllHolds(body, WindowsFrom(rule, |body|, sizes.size, sizes.overlap, 0), k, q);
  }

  /** No non-whitespace character of a text is lost: each lies in some piece, at its own place. */
  lemma PiecesLoseNothing(text: string, sizes: Sizes, p: nat) returns (i: nat, off: nat)
    requires !sizes.Rejected() && p < |text| && !IsSpace(text[p])
    ensures var pieces := PiecesOf(text, sizes);
            i < |pieces| && StandsAt(text, pieces[i], off) && off <= p < off + |pieces[i]|
  {
    hide Strip, Leading, IsSpace, Forward, PiecesFrom;
    var body, lead := Strip(text), Leading(text);
    StripKeeps(text);
    assert body[p - lead] == text[p];
    var at;
    i, at := BodyPiecesHold(body, sizes, p - lead);
    off := lead + at;
    SliceOfSlice(text, lead, lead + |body|, at, at + |PiecesOf(text, sizes)[i]|);
  }

  /** The same, of the chunks: chunk `i` carries index `i` and the page and document it was cut from. */
  lemma ChunksLoseNothing(text: string, sizes: Sizes, tag: Label, p: nat) returns (i: nat, off: nat)
    requires !sizes.Rejected() && p < |text| && !IsSpace(text[p])
    ensures i < |PiecesOf(text, sizes)|
    ensures var v := NumberAll(tag, PiecesOf(text, sizes), 0)[i];
            && v.documentId == tag.documentId && v.page == tag.page
            && v.chunkIndex == i && NamesChunk(v.chunkId, tag.documentId, i)
            && StandsAt(text, v.text, off) && off <= p < off + |v.text|
  {
    hide IsSpace, PiecesOf, NumberAll, ChunkId, NamesChunk;
    i, off := PiecesLoseNothing(text, sizes, p);
    ChunkIdNames(tag.documentId, i);
    NumberAllAt(tag, PiecesOf(text, sizes), 0, i);
  }

  /** Chunks are non-blank, stripped, and no longer than the chunk size. */
  lemma KeptAllStep(text: string, ws: seq<Window>, size: nat)
    requires AllIn(text, ws) && ws != []
    requires forall k :: 0 <= k < |ws| ==> ws[k].end - ws[k].start <= size
    ensures ws[0].start <= ws[0].end <= |text| && AllIn(text, ws[1..]) && ws[0].end - ws[0].start <= size
    ensures forall k :: 0 <= k < |ws[1..]| ==> ws[1..][k].end - ws[1..][k].start <= size
    ensures KeptAll(text, ws) == Kept(text, ws[0]) + KeptAll(text, ws[1..])
  {
    hide Kept;
  }

  predicate CleanPiece(piece: string, size: nat) {
    piece != "" && Strings.Stripped(piece) && |piece| <= size
  }

  predicate CleanPieces(pieces: seq<string>, size: nat) {
    forall i :: 0 <= i < |pieces| ==> CleanPiece(pieces[i], size)
  }

  lemma CleanAppend(a: seq<string>, b: seq<string>, size: nat)
    requires CleanPieces(a, size) && CleanPieces(b, size)
    ensures CleanPieces(a + b, size)
  {
    hide CleanPiece;
  }

  lemma {:induction false} KeptAllAreClean(text: string, ws: seq<Window>, size: nat)
    requires AllIn(text, ws)
    requires forall k :: 0 <= k < |ws| ==> ws[k].end - ws[k].start <= size
    ensures CleanPieces(KeptAll(text, ws), size)
    decreases |ws|
  {
    if ws != [] {
      hide *;
      KeptAllStep(text, ws, size);
      KeptIsClean(text, ws[0], size);
      KeptAllAreClean(text, ws[1..], size);
      CleanAppend(Kept(text, ws[0]), KeptAll(text, ws[1..]), size);
    }
  }

  lemma KeptIsClean(text: string, w: Window, size: nat)
    requires w.start <= w.end <= |text| && w.end - w.start <= size
    ensures CleanPieces(Kept(text, w), size)
  {
    StripKeeps(text[w.start..w.end]);
    hide Strip, Leading, IsSpace;
  }

  lemma ChunksAreClean(text: string, sizes: Sizes, i: nat)
    requires !sizes.Rejected() && i < |PiecesOf(text, sizes)|
    ensures var piece := PiecesOf(text, sizes)[i]; piece != "" && Strings.Stripped(piece) && |piece| <= sizes.size
  {
    var body := Strip(text);
    ForwardMoves(body, sizes.size, sizes.overlap);
    var rule := Forward(body, sizes.size, sizes.overlap);
    WindowsSlide(rule, |body|, sizes.size, sizes.overlap, 0);
    WindowsAllIn(body, rule, sizes.size, sizes.overlap, 0);
    var ws := WindowsFrom(rule, |body|, sizes.size, sizes.overlap, 0);
    assert forall k :: 0 <= k < |ws| ==> InBounds(|body|, ws[k], sizes.size);
    KeptAllAreClean(body, ws, sizes.size);
    assert CleanPiece(PiecesOf(text, sizes)[i], sizes.size);
  }

  /** How many of the first `k` windows are not blank. */
  function NonBlanks(text: string, ws: seq<Window>, k: nat): (n: nat)
    requires AllIn(text, ws) && k <= |ws|
    ensures n <= k
  {
    if k == 0 then 0
    else NonBlanks(text, ws, k - 1) + if Strip(text[ws[k - 1].start..ws[k - 1].end]) == "" then 0 else 1
  }

  /** The kept windows of a prefix, and one more. */
  lemma JoinsTo(text: string, ws: seq<Window>, a: seq<Window>, b: seq<Window>)
    requires AllIn(text, a) && AllIn(text, b) && ws == a + b
    ensures AllIn(text, ws) && KeptAll(text, ws) == KeptAll(text, a) + KeptAll(text, b)
  {
    hide *;
    KeptAllJoins(text, a, b);
  }

  lemma PrefixIsKept(text: string, ws: seq<Window>, k: nat)
    requires AllIn(text, ws) && k <= |ws|
    ensures AllIn(text, ws[..k]) && KeptAll(text, ws[..k]) <= KeptAll(text, ws)
  {
    hide *;
    PartsAreIn(text, ws, k);
    assert ws == ws[..k] + ws[k..];
    JoinsTo(text, ws, ws[..k], ws[k..]);
  }

  lemma PrefixesKept(text: string, ws: seq<Window>, k: nat)
    requires AllIn(text, ws) && k < |ws|
    ensures AllIn(text, ws[..k]) && AllIn(text, ws[..k + 1]) && ws[k].start <= ws[k].end <= |text|
    ensures KeptAll(text, ws[..k + 1]) == KeptAll(text, ws[..k]) + Kept(text, ws[k])
  {
    hide *;
    PartsAreIn(text, ws, k);
    PartsAreIn(text, ws, k + 1);
    KeptOne(text, ws[k]);
    assert ws[..k + 1] == ws[..k] + [ws[k]];
    JoinsTo(text, ws[..k + 1], ws[..k], [ws[k]]);
  }

  lemma PartsAreIn(text: string, ws: seq<Window>, k: nat)
    requires AllIn(text, ws) && k <= |ws|
    ensures AllIn(text, ws[..k]) && AllIn(text, ws[k..])
    ensures k > 0 ==> AllIn(text, ws[..k - 1]) && ws[k - 1].start <= ws[k - 1].end <= |text|
  {
  }

  lemma NonBlanksStep(text: string, ws: seq<Window>, k: nat)
    requires AllIn(text, ws) && k <= |ws|
    ensures k == 0 ==> ws[..k] == [] && NonBlanks(text, ws, k) == 0 && KeptAll(text, ws[..k]) == []
    ensures k > 0 ==>
              && ws[k - 1].start <= ws[k - 1].end <= |text|
              && NonBlanks(text, ws, k)
                 == NonBlanks(text, ws, k - 1) + if Strip(text[ws[k - 1].start..ws[k - 1].end]) == "" then 0 else 1
  {
    hide Strip;
  }

  lemma {:induction false} KeptAllPrefix(text: string, ws: seq<Window>, k: nat)
    requires AllIn(text, ws) && k <= |ws|
    ensures AllIn(text, ws[..k]) && |KeptAll(text, ws[..k])| == NonBlanks(text, ws, k)
    ensures KeptAll(text, ws[..k]) <= KeptAll(text, ws)
  {
    hide *;
    PrefixIsKept(text, ws, k);
    NonBlanksStep(text, ws, k);
    if k > 0 {
      PrefixesKept(text, ws, k - 1);
      KeptAllPrefix(text, ws, k - 1);
      KeptOne(text, ws[k - 1]);
    }
  }

  lemma KeptOne(text: string, w: Window)
    requires w.start <= w.end <= |text|
    ensures AllIn(text, [w]) && KeptAll(text, [w]) == Kept(text, w)
    ensures |Kept(text, w)| == if Strip(text[w.start..w.end]) == "" then 0 else 1
  {
    hide Strip;
    assert [w][1..] == [];
  }

  lemma {:induction false} KeptAllJoins(text: string, a: seq<Window>, b: seq<Window>)
    requires AllIn(text, a) && AllIn(text, b)
    ensures AllIn(text, a + b) && KeptAll(text, a + b) == KeptAll(text, a) + KeptAll(text, b)
    decreases |a|
  {
    hide *;
    if a == [] {
      assert a + b == b;
      NothingKept(text);
      assert KeptAll(text, a) + KeptAll(text, b) == KeptAll(text, b);
    } else {
      KeptAllStepped(text, a);
      KeptAllJoins(text, a[1..], b);
      assert a + b == [a[0]] + (a[1..] + b);
      KeptCons(text, a[0], a[1..] + b);
      var first, more, behind := Kept(text, a[0]), KeptAll(text, a[1..]), KeptAll(text, b);
      assert first + (more + behind) == first + more + behind;
    }
  }

  lemma KeptAllStepped(text: string, ws: seq<Window>)
    requires AllIn(text, ws) && ws != []
    ensures ws[0].start <= ws[0].end <= |text| && AllIn(text, ws[1..])
    ensures KeptAll(text, ws) == Kept(text, ws[0]) + KeptAll(text, ws[1..])
  {
    hide Kept;
  }

  /**
   * The chunks of a text on which the loop ends are its windows, stripped, in order, without the blank ones;
   * `WindowsFollowTheSource` says which windows these are.
   */
  lemma ChunksAreTheWindows(text: string, sizes: Sizes)
    requires !sizes.Rejected() && Strip(text) != ""
    ensures var body, pieces := Strip(text), PiecesOf(text, sizes);
            var ws := TextWindows(body, sizes.size, sizes.overlap);
            && AllIn(body, ws) && |pieces| == NonBlanks(body, ws, |ws|)
            && forall k: nat :: k < |ws| ==>
                 var piece := Strip(body[ws[k].start..ws[k].end]);
                 piece != "" ==> NonBlanks(body, ws, k) < |pieces| && pieces[NonBlanks(body, ws, k)] == piece
    ensures Strip(text) != "" && sizes.EndsOn(text) ==> Halts(Strip(text), sizes.size, sizes.overlap)
  {
    var body, pieces := Strip(text), PiecesOf(text, sizes);
    var ws := TextWindows(body, sizes.size, sizes.overlap);
    TextWindowsRebuildText(body, sizes.size, sizes.overlap);
    assert pieces == KeptAll(body, ws);
    hide *;
    KeptAllPrefix(body, ws, |ws|);
    assert ws[..|ws|] == ws;
    forall k: nat | k < |ws|
      ensures var piece := Strip(body[ws[k].start..ws[k].end]);
              piece != "" ==> NonBlanks(body, ws, k) < |pieces| && pieces[NonBlanks(body, ws, k)] == piece
    {
      KeptAt(body, ws, k);
    }
  }

  lemma KeptAt(text: string, ws: seq<Window>, k: nat)
    requires AllIn(text, ws) && k < |ws|
    ensures ws[k].start <= ws[k].end <= |text|
    ensures var piece, pieces := Strip(text[ws[k].start..ws[k].end]), KeptAll(text, ws);
            piece != "" ==> NonBlanks(text, ws, k) < |pieces| && pieces[NonBlanks(text, ws, k)] == piece
  {
    hide *;
    KeptAllPrefix(text, ws, k);
    PrefixesKept(text, ws, k);
    PrefixIsKept(text, ws, k + 1);
    KeptIs(text, ws[k]);
    var n, now := |KeptAll(text, ws[..k])|, KeptAll(text, ws[..k + 1]);
    if Strip(text[ws[k].start..ws[k].end]) != "" {
      assert now[n] == Kept(text, ws[k])[0];
    }
  }

  lemma KeptIs(text: string, w: Window)
    requires w.start <= w.end <= |text|
    ensures var piece := Strip(text[w.start..w.end]); piece != "" ==> Kept(text, w) == [piece]
  {
    hide Strip;
  }

  /** `id` is `documentId_chunk_i`, with `i` in decimal digits. */
  predicate NamesChunk(id: string, documentId: string, i: nat) {
    var n := |documentId| + 7;
    |id| > n && id[..n] == documentId + "_chunk_" && ReadsAs(id[n..], i)
  }

  lemma ChunkIdNames(documentId: string, i: nat)
    ensures NamesChunk(ChunkId(documentId, i), documentId, i)
  {
    DecimalReads(i);
    hide ReadsAs, Decimal;
    var id, n := ChunkId(documentId, i), |documentId| + 7;
    assert id == documentId + "_chunk_" + Decimal(i);
    assert id[n..] == Decimal(i);
  }

  /** A chunk id names its document and its index, whatever characters the document id holds. */
  lemma ChunkIdInjective(d1: string, i1: nat, d2: string, i2: nat)
    requires ChunkId(d1, i1) == ChunkId(d2, i2)
    ensures d1 == d2 && i1 == i2
  {
    NumberedInjective(d1 + "_chunk", i1, d2 + "_chunk", i2);
    assert d1 == (d1 + "_chunk")[..|d1|] && d2 == (d2 + "_chunk")[..|d2|];
  }

  // ----- Several pages -------------------------------------------------------------------------------

  /** A piece and the page it comes from. */
  datatype Item = Item(page: nat, piece: string)

  function OnPage(page: nat, pieces: seq<string>): (items: seq<Item>)
    ensures |items| == |pieces|
    ensures forall i :: 0 <= i < |items| ==> items[i] == Item(page, pieces[i])
  {
    seq(|pieces|, i requires 0 <= i < |pieces| => Item(page, pieces[i]))
  }

  /** The pieces of every page, pages counted from 1. */
  function AllItems(pages: seq<string>, sizes: Sizes): seq<Item>
    requires !sizes.Rejected()
  {
    if pages == [] then []
    else AllItems(pages[..|pages| - 1], sizes) + OnPage(|pages|, PiecesOf(pages[|pages| - 1], sizes))
  }

  /** Numbered densely from 0 across the pages. */
  function NumberItems(documentId: string, items: seq<Item>): (vs: seq<View>)
    ensures |vs| == |items|
  {
    if items == [] then []
    else
      var last := |items| - 1;
      NumberItems(documentId, items[..last])
      + [Number(Label(documentId, Some(items[last].page)), items[last].piece, last)]
  }

  lemma {:induction false} NumberItemsAt(documentId: string, items: seq<Item>, i: nat)
    requires i < |items|
    ensures NumberItems(documentId, items)[i] == Number(Label(documentId, Some(items[i].page)), items[i].piece, i)
  {
    hide Number;
    if i < |items| - 1 {
      NumberItemsAt(documentId, items[..|items| - 1], i);
    }
  }

  lemma {:induction false} ItemsLoseNothing(pages: seq<string>, sizes: Sizes, k: nat, p: nat) returns (i: nat, off: nat)
    requires !sizes.Rejected() && k < |pages| && p < |pages[k]| && !IsSpace(pages[k][p])
    ensures i < |AllItems(pages, sizes)| && AllItems(pages, sizes)[i].page == k + 1
    ensures var piece := AllItems(pages, sizes)[i].piece;
            StandsAt(pages[k], piece, off) && off <= p < off + |piece|
    decreases |pages|
  {
    hide IsSpace, PiecesOf;
    var last := |pages| - 1;
    if k < last {
      i, off := ItemsLoseNothing(pages[..last], sizes, k, p);
    } else {
      var j;
      j, off := PiecesLoseNothing(pages[last], sizes, p);
      i := |AllItems(pages[..last], sizes)| + j;
    }
  }

  /** Every non-whitespace character of every page lies in a chunk of that page, at its own place. */
  lemma PagesLoseNothing(documentId: string, pages: seq<string>, sizes: Sizes, k: nat, p: nat)
    returns (i: nat, off: nat)
    requires !sizes.Rejected() && k < |pages| && p < |pages[k]| && !IsSpace(pages[k][p])
    ensures i < |AllItems(pages, sizes)|
    ensures var v := NumberItems(documentId, AllItems(pages, sizes))[i];
            && v.documentId == documentId && v.page == Some(k + 1)
            && v.chunkIndex == i && NamesChunk(v.chunkId, documentId, i)
            && StandsAt(pages[k], v.text, off) && off <= p < off + |v.text|
  {
    hide IsSpace, AllItems, NumberItems, ChunkId, NamesChunk;
    i, off := ItemsLoseNothing(pages, sizes, k, p);
    ChunkIdNames(documentId, i);
    NumberItemsAt(documentId, AllItems(pages, sizes), i);
  }

  /** `for c in page_chunks: c.chunk_index = ...; c.chunk_id = ...; running_index += 1`. */
  method Renumber(chunks: seq<Chunk>, documentId: string, running: nat)
    requires Distinct(chunks)
    modifies chunks
    ensures forall i :: 0 <= i < |chunks| ==>
              chunks[i].Get() == old(chunks[i].Get()).(chunkId := ChunkId(documentId, running + i), chunkIndex := running + i)
  {
    for j := 0 to |chunks|
      invariant forall i :: 0 <= i < j ==>
        chunks[i].Get() == old(chunks[i].Get()).(chunkId := ChunkId(documentId, running + i), chunkIndex := running + i)
      invariant forall i :: j <= i < |chunks| ==> chunks[i].Get() == old(chunks[i].Get())
    {
      hide ChunkId;
      chunks[j].chunkIndex := running + j;
      chunks[j].chunkId := ChunkId(documentId, running + j);
    }
  }

  /** Pages of renumbered chunks come after those of earlier pages. */
  lemma AppendPage(documentId: string, items: seq<Item>, page: nat, pieces: seq<string>, earlier: seq<View>, later: seq<View>)
    requires earlier == NumberItems(documentId, items) && |later| == |pieces|
    requires forall i :: 0 <= i < |pieces| ==>
               later[i] == Number(Label(documentId, Some(page)), pieces[i], |items| + i)
    ensures earlier + later == NumberItems(documentId, items + OnPage(page, pieces))
  {
    hide Number, NumberItems;
    var all := items + OnPage(page, pieces);
    forall i | 0 <= i < |all|
      ensures (earlier + later)[i] == NumberItems(documentId, all)[i]
    {
      NumberItemsAt(documentId, all, i);
      if i < |items| {
        NumberItemsAt(documentId, items, i);
      }
    }
  }

  /** One page: its chunks, numbered on from the chunks of earlier pages. */
  method ChunkPage(text: string, documentId: string, page: nat, defaults: Sizes, running: nat)
    returns (r: Result<seq<Chunk>, string>)
    requires defaults.EndsOn(text)
    ensures r.Failure? <==> defaults.Rejected()
    ensures r.Success? ==> Distinct(r.value) && forall c :: c in r.value ==> fresh(c)
    ensures r.Success? ==>
      && |r.value| == |PiecesOf(text, defaults)|
      && forall i :: 0 <= i < |r.value| ==>
           r.value[i].Get() == Number(Label(documentId, Some(page)), PiecesOf(text, defaults)[i], running + i)
  {
    assert Sizes(0, 0).Or(defaults) == defaults;
    hide *;
    var tag := Label(documentId, Some(page));
    r := ChunkText(text, documentId, Some(page), Sizes(0, 0), defaults);
    if r.Failure? {
      return;
    }
    var chunks := r.value;
    ghost var pieces := PiecesOf(text, defaults);
    NumberAllEverywhere(tag, pieces, running);
    ViewsAre(chunks);
    Renumber(chunks, documentId, running);
  }

  lemma ViewsAre(chunks: seq<Chunk>)
    ensures |Views(chunks)| == |chunks|
    ensures forall i :: 0 <= i < |chunks| ==> chunks[i] in chunks && chunks[i].Get() == Views(chunks)[i]
  {
  }

  /** Renumbering turns the chunks of a page alone into those of the page within its document. */
  lemma NumberAllEverywhere(tag: Label, pieces: seq<string>, running: nat)
    ensures |NumberAll(tag, pieces, 0)| == |pieces|
    ensures forall i :: 0 <= i < |pieces| ==>
              NumberAll(tag, pieces, 0)[i]
                .(chunkId := ChunkId(tag.documentId, running + i), chunkIndex := running + i)
              == Number(tag, pieces[i], running + i)
  {
    hide ChunkId, NumberAll;
    forall i | 0 <= i < |pieces|
      ensures NumberAll(tag, pieces, 0)[i]
                .(chunkId := ChunkId(tag.documentId, running + i), chunkIndex := running + i)
              == Number(tag, pieces[i], running + i)
    {
      NumberAllAt(tag, pieces, 0, i);
    }
  }

  /** `chunk_multi_page_document`. */
  method ChunkMultiPage(pages: seq<string>, documentId: string, defaults: Sizes)
    returns (r: Result<seq<Chunk>, string>)
    requires forall page :: page in pages ==> defaults.EndsOn(page)
    ensures r.Failure? <==> pages != [] && defaults.Rejected()
    ensures r.Success? ==> Distinct(r.value) && forall c :: c in r.value ==> fresh(c)
    ensures r.Success? && pages != [] ==> Views(r.value) == NumberItems(documentId, AllItems(pages, defaults))
    ensures r.Success? && pages == [] ==> r.value == []
  {
    hide *;
    var all: seq<Chunk> := [];
    var running := 0;
    NoChunks();
    NoItems(documentId, pages, defaults);
    for n := 0 to |pages|
      invariant n > 0 ==> !defaults.Rejected()
      invariant Distinct(all) && forall c :: c in all ==> fresh(c)
      invariant running == |all|
      invariant n == 0 ==> all == []
      invariant n > 0 ==> Views(all) == NumberItems(documentId, AllItems(pages[..n], defaults))
    {
      var page := ChunkPage(pages[n], documentId, n + 1, defaults, running);
      if page.Failure? {
        return Failure(page.error);
      }
      ghost var before, added := Views(all), Views(page.value);
      ghost var items := if n == 0 then [] else AllItems(pages[..n], defaults);
      NoItems(documentId, pages, defaults);
      AppendPage(documentId, items, n + 1, PiecesOf(pages[n], defaults), before, added);
      AllItemsStep(pages, defaults, n);
      Extend(all, page.value);
      running := running + |page.value|;
      all := all + page.value;
    }
    assert pages[..|pages|] == pages;
    return Success(all);
  }

  lemma NoItems(documentId: string, pages: seq<string>, sizes: Sizes)
    ensures NumberItems(documentId, []) == []
    ensures !sizes.Rejected() ==> AllItems(pages[..0], sizes) == []
  {
  }

  lemma AllItemsStep(pages: seq<string>, sizes: Sizes, n: nat)
    requires !sizes.Rejected() && n < |pages|
    ensures AllItems(pages[..n + 1], sizes) == AllItems(pages[..n], sizes) + OnPage(n + 1, PiecesOf(pages[n], sizes))
  {
    hide PiecesOf;
    assert pages[..n + 1][..n] == pages[..n];
  }

  lemma Extend(a: seq<Chunk>, b: seq<Chunk>)
    requires Distinct(a) && Distinct(b) && forall c :: c in b ==> c !in a
    ensures Distinct(a + b) && Views(a + b) == Views(a) + Views(b)
  {
    var all := a + b;
    forall i, j | 0 <= i < j < |all|
      ensures all[i] != all[j]
    {
      assert i < |a| ==> all[i] == a[i];
      assert j >= |a| ==> all[j] == b[j - |a|] && all[j] in b;
    }
  }
}
