/** `index_document`: chunks and their vectors go into the store, under ids that make re-indexing an upsert. */
module Indexing {
  import opened Strings
  import opened Wrappers
  import opened Windows
  import opened Chunking

  // ----- Embedding in batches ------------------------------------------------------------------------

  /** One call of the embedding service: the vectors it answers, or its error. */
  type Service<!V> = seq<string> -> Result<seq<V>, string>

  /** What `embed_batch` collects, batch by batch. */
  function EmbedAll<V>(service: Service<V>, texts: seq<string>, maxBatch: nat): Result<seq<V>, string>
    requires maxBatch >= 1
    decreases |texts|
  {
    if texts == [] then Success([])
    else
      var n := if maxBatch <= |texts| then maxBatch else |texts|;
      match service(texts[..n])
      case Failure(e) => Failure(e)
      case Success(vs) => Prefixed(vs, EmbedAll(service, texts[n..], maxBatch))
  }

  /** `range` refuses a step of zero and is empty for a negative one. */
  function Embedded<V>(service: Service<V>, texts: seq<string>, maxBatch: int): Result<seq<V>, string> {
    if maxBatch == 0 then Failure("range() arg 3 must not be zero")
    else if maxBatch < 0 then Success([])
    else EmbedAll(service, texts, maxBatch)
  }

  /** The source's stepped loop, which extends `results`. */
  method EmbedBatch<V>(service: Service<V>, texts: seq<string>, maxBatch: int) returns (r: Result<seq<V>, string>)
    ensures r == Embedded(service, texts, maxBatch)
    ensures (maxBatch == 0 ==> r.Failure?) && (maxBatch < 0 ==> r == Success([]))
    ensures maxBatch > 0 ==> r == EmbedAll(service, texts, maxBatch)
  {
    if maxBatch == 0 {
      return Failure("range() arg 3 must not be zero");
    }
    if maxBatch < 0 {
      return Success([]);
    }
    var results: seq<V> := [];
    var i := 0;
    PrefixNothing(EmbedAll(service, texts, maxBatch));
    while i < |texts|
      invariant 0 <= i <= |texts|
      invariant EmbedAll(service, texts, maxBatch) == Prefixed(results, EmbedAll(service, texts[i..], maxBatch))
      decreases |texts| - i
    {
      var n := if i + maxBatch <= |texts| then i + maxBatch else |texts|;
      assert texts[i..][..n - i] == texts[i..n] && texts[i..][n - i..] == texts[n..];
      var answer := service(texts[i..n]);
      if answer.Failure? {
        return Failure(answer.error);
      }
      PrefixTwice(results, answer.value, EmbedAll(service, texts[n..], maxBatch));
      results := results + answer.value;
      i := n;
    }
    assert texts[i..] == [] && results + [] == results;
    return Success(results);
  }

  function Prefixed<V>(results: seq<V>, r: Result<seq<V>, string>): Result<seq<V>, string> {
    match r
    case Failure(e) => Failure(e)
    case Success(rest) => Success(results + rest)
  }

  lemma PrefixNothing<V>(r: Result<seq<V>, string>)
    ensures Prefixed([], r) == r
    ensures forall results: seq<V> :: results + [] == results
  {
    if r.Success? {
      assert [] + r.value == r.value;
    }
  }

  lemma PrefixTwice<V>(a: seq<V>, b: seq<V>, r: Result<seq<V>, string>)
    ensures Prefixed(a, Prefixed(b, r)) == Prefixed(a + b, r)
  {
    if r.Success? {
      assert a + (b + r.value) == (a + b) + r.value;
    }
  }

  function MapAll<V>(vector: string -> V, texts: seq<string>): (vs: seq<V>)
    ensures |vs| == |texts| && forall i :: 0 <= i < |texts| ==> vs[i] == vector(texts[i])
  {
    seq(|texts|, i requires 0 <= i < |texts| => vector(texts[i]))
  }

  /** Every successful call answers one vector per text, each its text's own. */
  ghost predicate AnswersEachText<V(!new)>(service: Service<V>, vector: string -> V) {
    forall batch :: service(batch).Success? ==> service(batch).value == MapAll(vector, batch)
  }

  /** Batching keeps every vector with its text, whatever the batch size. */
  lemma {:induction false} BatchesKeepOrder<V(!new)>(
    service: Service<V>, vector: string -> V, texts: seq<string>, maxBatch: nat)
    requires maxBatch >= 1 && AnswersEachText(service, vector)
    ensures var r := EmbedAll(service, texts, maxBatch); r.Success? ==> r.value == MapAll(vector, texts)
    decreases |texts|
  {
    if texts != [] {
      var n := if maxBatch <= |texts| then maxBatch else |texts|;
      BatchesKeepOrder(service, vector, texts[n..], maxBatch);
      assert texts == texts[..n] + texts[n..];
      assert MapAll(vector, texts) == MapAll(vector, texts[..n]) + MapAll(vector, texts[n..]);
    }
  }

  /** The texts from one position on, at most `maxBatch` of them. */
  function BatchFrom(texts: seq<string>, maxBatch: nat, from: nat): seq<string>
    requires from < |texts|
  {
    if from + maxBatch <= |texts| then texts[from..from + maxBatch] else texts[from..]
  }

  /** Batch `j` begins at text `j * maxBatch`. */
  predicate Answered<V>(service: Service<V>, texts: seq<string>, maxBatch: nat, j: nat) {
    j * maxBatch < |texts| ==> service(BatchFrom(texts, maxBatch, j * maxBatch)).Success?
  }

  ghost predicate Refused<V>(service: Service<V>, texts: seq<string>, maxBatch: nat, j: nat, error: string) {
    j * maxBatch < |texts| && service(BatchFrom(texts, maxBatch, j * maxBatch)) == Failure(error)
  }

  lemma EmbedFirst<V>(service: Service<V>, texts: seq<string>, maxBatch: nat)
    requires maxBatch >= 1 && texts != []
    ensures var n := if maxBatch <= |texts| then maxBatch else |texts|;
            var answer := service(texts[..n]);
            && (answer.Failure? ==> EmbedAll(service, texts, maxBatch) == Failure(answer.error))
            && (answer.Success? ==>
                  EmbedAll(service, texts, maxBatch) == Prefixed(answer.value, EmbedAll(service, texts[n..], maxBatch)))
  {
    hide Prefixed;
  }

  lemma EmbedStep<V>(service: Service<V>, texts: seq<string>, maxBatch: nat, from: nat)
    requires maxBatch >= 1 && from < |texts|
    ensures var next := if from + maxBatch <= |texts| then from + maxBatch else |texts|;
            var answer := service(BatchFrom(texts, maxBatch, from)); var r := EmbedAll(service, texts[from..], maxBatch);
            && (answer.Failure? ==> r == Failure(answer.error))
            && (answer.Success? ==> r == Prefixed(answer.value, EmbedAll(service, texts[next..], maxBatch)))
  {
    hide EmbedAll, Prefixed;
    var rest := texts[from..];
    var n := if maxBatch <= |rest| then maxBatch else |rest|;
    EmbedFirst(service, rest, maxBatch);
    assert rest[..n] == BatchFrom(texts, maxBatch, from) && rest[n..] == texts[from + n..];
  }

  /**
   * Embedding fails with the error of the first batch that is not answered, and succeeds exactly when there is
   * none. No other call is made: batch `j` holds the texts from `j * maxBatch` up to the next batch.
   */
  lemma {:induction false} EmbeddingSucceedsExactly<V>(service: Service<V>, texts: seq<string>, maxBatch: nat, j: nat)
    requires maxBatch >= 1 && j * maxBatch <= |texts|
    ensures var r := EmbedAll(service, texts[j * maxBatch..], maxBatch);
            && (r.Success? <==> forall i: nat :: i >= j ==> Answered(service, texts, maxBatch, i))
            && (r.Failure? ==> exists i: nat ::
                  Refused(service, texts, maxBatch, i, r.error)
                  && forall k: nat :: j <= k < i ==> Answered(service, texts, maxBatch, k))
    decreases |texts| - j * maxBatch
  {
    if j * maxBatch == |texts| {
      BatchesEnd(service, texts, maxBatch, j);
    } else {
      EmbedStep(service, texts, maxBatch, j * maxBatch);
      var answer := service(BatchFrom(texts, maxBatch, j * maxBatch));
      hide EmbedAll, BatchFrom;
      if answer.Failure? {
        assert !Answered(service, texts, maxBatch, j) && Refused(service, texts, maxBatch, j, answer.error);
      } else if j * maxBatch + maxBatch <= |texts| {
        assert (j + 1) * maxBatch == j * maxBatch + maxBatch;
        EmbeddingSucceedsExactly(service, texts, maxBatch, j + 1);
        assert Answered(service, texts, maxBatch, j);
      } else {
        assert (j + 1) * maxBatch == j * maxBatch + maxBatch;
        BatchesEnd(service, texts, maxBatch, j + 1);
        EmbedNothing(service, texts, maxBatch);
        assert Answered(service, texts, maxBatch, j);
      }
    }
  }

  lemma EmbedNothing<V>(service: Service<V>, texts: seq<string>, maxBatch: nat)
    requires maxBatch >= 1
    ensures EmbedAll(service, texts[|texts|..], maxBatch) == Success([])
  {
  }

  /** Behind the last text there is no batch. */
  lemma BatchesEnd<V>(service: Service<V>, texts: seq<string>, maxBatch: nat, j: nat)
    requires maxBatch >= 1 && j * maxBatch >= |texts|
    ensures forall i: nat :: i >= j ==> Answered(service, texts, maxBatch, i)
    ensures j * maxBatch == |texts| ==> EmbedAll(service, texts[j * maxBatch..], maxBatch) == Success([])
  {
    forall i: nat | i >= j
      ensures Answered(service, texts, maxBatch, i)
    {
      assert i * maxBatch == j * maxBatch + (i - j) * maxBatch;
    }
  }

  /** Every batch of one to `maxBatch` texts is answered with each text's own vector. */
  ghost predicate AnswersBatches<V(!new)>(service: Service<V>, vector: string -> V, maxBatch: int) {
    forall batch :: 1 <= |batch| <= maxBatch ==> service(batch) == Success(MapAll(vector, batch))
  }

  /** A service that answers batches of the permitted size is enough: no call carries more texts, or none. */
  lemma {:induction false} PermittedBatchesSuffice<V(!new)>(
    service: Service<V>, vector: string -> V, texts: seq<string>, maxBatch: nat)
    requires maxBatch >= 1 && AnswersBatches(service, vector, maxBatch)
    ensures EmbedAll(service, texts, maxBatch) == Success(MapAll(vector, texts))
    decreases |texts|
  {
    if texts != [] {
      var n := if maxBatch <= |texts| then maxBatch else |texts|;
      PermittedBatchesSuffice(service, vector, texts[n..], maxBatch);
      assert texts == texts[..n] + texts[n..];
      assert MapAll(vector, texts) == MapAll(vector, texts[..n]) + MapAll(vector, texts[n..]);
    }
  }

  // ----- The stores ----------------------------------------------------------------------------------

  datatype Row<V> = Row(documentId: string, page: Option<nat>, text: string, embedding: V)

  type Rows<V> = map<string, Row<V>>

  /** `INSERT ... ON CONFLICT (chunk_id) DO UPDATE SET text, embedding`: page and document stay. */
  function Upsert<V>(rows: Rows<V>, id: string, row: Row<V>): Rows<V> {
    if id in rows then rows[id := rows[id].(text := row.text, embedding := row.embedding)] else rows[id := row]
  }

  class PostgresVectorStore<V> {
    var rows: Rows<V>

    constructor ()
      ensures rows == map[]
    {
      rows := map[];
    }

    method AddChunk(id: string, row: Row<V>)
      modifies this
      ensures rows == Upsert(old(rows), id, row)
    {
      if id in rows {
        rows := rows[id := rows[id].(text := row.text, embedding := row.embedding)];
      } else {
        rows := rows[id := row];
      }
    }
  }

  /** `zip(chunks, embeddings)`, as rows: the shorter list decides. */
  function ZipRows<V>(views: seq<View>, vectors: seq<V>): (rows: seq<Row<V>>)
    ensures |rows| == if |views| <= |vectors| then |views| else |vectors|
    ensures forall i :: 0 <= i < |rows| ==> rows[i] == Row(views[i].documentId, views[i].page, views[i].text, vectors[i])
  {
    if views == [] || vectors == [] then []
    else [Row(views[0].documentId, views[0].page, views[0].text, vectors[0])] + ZipRows(views[1..], vectors[1..])
  }

  /** Rows under the dense ids of one document. */
  function StoreRows<V>(rows: Rows<V>, documentId: string, added: seq<Row<V>>): Rows<V> {
    if added == [] then rows
    else
      var last := |added| - 1;
      Upsert(StoreRows(rows, documentId, added[..last]), ChunkId(documentId, last), added[last])
  }

  datatype Content = Text(text: string) | Pages(pages: seq<string>)

  /** Chunking this document returns. */
  ghost predicate EndsOnAll(content: Content, defaults: Sizes) {
    match content
    case Text(text) => defaults.EndsOn(text)
    case Pages(pages) => forall page :: page in pages ==> defaults.EndsOn(page)
  }

  /** The chunks of a document, whichever way it is given. */
  function ChunksOf(documentId: string, content: Content, defaults: Sizes): seq<View>
    requires !defaults.Rejected()
  {
    match content
    case Text(text) => NumberAll(Label(documentId, None), PiecesOf(text, defaults), 0)
    case Pages(pages) => NumberItems(documentId, AllItems(pages, defaults))
  }

  function TextsOf(views: seq<View>): (texts: seq<string>)
    ensures |texts| == |views| && forall i :: 0 <= i < |views| ==> texts[i] == views[i].text
  {
    seq(|views|, i requires 0 <= i < |views| => views[i].text)
  }

  /** Chunk `i` of a document carries the id of index `i`. */
  lemma ChunksAreDense(documentId: string, content: Content, defaults: Sizes, i: nat)
    requires !defaults.Rejected() && i < |ChunksOf(documentId, content, defaults)|
    ensures var v := ChunksOf(documentId, content, defaults)[i];
            && v.chunkId == ChunkId(documentId, i) && NamesChunk(v.chunkId, documentId, i)
            && v.documentId == documentId && v.chunkIndex == i
  {
    ChunkIdNames(documentId, i);
    hide NamesChunk, ChunkId, PiecesOf, AllItems, NumberAll, NumberItems;
    match content
    case Text(text) => NumberAllAt(Label(documentId, None), PiecesOf(text, defaults), 0, i);
    case Pages(pages) => NumberItemsAt(documentId, AllItems(pages, defaults), i);
  }

  // ----- What storing does to each id ------------------------------------------------------------------

  /** What an id holds after storing: its own new row merged into an old one, or what it held before. */
  ghost predicate HoldsAfter<V>(rows: Rows<V>, documentId: string, added: seq<Row<V>>, after: Rows<V>, id: string) {
    && (forall i :: 0 <= i < |added| && id == ChunkId(documentId, i) ==>
          id in after && after[id] == Upsert(rows, id, added[i])[id])
    && ((forall i :: 0 <= i < |added| ==> id != ChunkId(documentId, i)) ==>
          (id in after <==> id in rows) && (id in rows ==> after[id] == rows[id]))
  }

  lemma HoldsNothing<V>(rows: Rows<V>, documentId: string, id: string)
    ensures HoldsAfter(rows, documentId, [], rows, id)
  {
  }

  /** One more row under a new id. */
  lemma HoldsOneMore<V>(
    rows: Rows<V>, documentId: string, added: seq<Row<V>>, row: Row<V>, before: Rows<V>, id: string)
    requires HoldsAfter(rows, documentId, added, before, id)
    ensures HoldsAfter(rows, documentId, added + [row], Upsert(before, ChunkId(documentId, |added|), row), id)
  {
    var own, all := ChunkId(documentId, |added|), added + [row];
    forall i | 0 <= i < |added|
      ensures ChunkId(documentId, i) != own && all[i] == added[i]
    {
      if ChunkId(documentId, i) == own {
        ChunkIdInjective(documentId, i, documentId, |added|);
      }
    }
    hide ChunkId;
  }

  lemma {:induction false} StoreRowsPointwise<V>(rows: Rows<V>, documentId: string, added: seq<Row<V>>, id: string)
    ensures HoldsAfter(rows, documentId, added, StoreRows(rows, documentId, added), id)
  {
    if added == [] {
      HoldsNothing(rows, documentId, id);
    } else {
      var last := |added| - 1;
      assert added[..last] + [added[last]] == added;
      hide HoldsAfter, ChunkId, Upsert;
      StoreRowsPointwise(rows, documentId, added[..last], id);
      HoldsOneMore(rows, documentId, added[..last], added[last], StoreRows(rows, documentId, added[..last]), id);
    }
  }

  /** Storing the same rows again changes nothing. */
  lemma StoringTwiceIsStoringOnce<V>(rows: Rows<V>, documentId: string, added: seq<Row<V>>)
    ensures StoreRows(StoreRows(rows, documentId, added), documentId, added) == StoreRows(rows, documentId, added)
  {
    var once := StoreRows(rows, documentId, added);
    var twice := StoreRows(once, documentId, added);
    forall id
      ensures (id in twice <==> id in once) && (id in once ==> twice[id] == once[id])
    {
      hide ChunkId, StoreRows;
      StoreRowsPointwise(rows, documentId, added, id);
      StoreRowsPointwise(once, documentId, added, id);
      if i :| 0 <= i < |added| && id == ChunkId(documentId, i) {
        assert once[id] == Upsert(rows, id, added[i])[id];
      }
    }
  }

  /** No chunk of another document is touched, whatever the two ids look like. */
  lemma OtherDocumentsUntouched<V>(
    rows: Rows<V>, documentId: string, added: seq<Row<V>>, other: string, j: nat)
    requires other != documentId
    ensures var after, id := StoreRows(rows, documentId, added), ChunkId(other, j);
            (id in after <==> id in rows) && (id in rows ==> after[id] == rows[id])
  {
    hide ChunkId;
    var id := ChunkId(other, j);
    StoreRowsPointwise(rows, documentId, added, id);
    forall i | 0 <= i < |added|
      ensures id != ChunkId(documentId, i)
    {
      if id == ChunkId(documentId, i) {
        ChunkIdInjective(other, j, documentId, i);
      }
    }
  }

  /** The store holds exactly these rows for a document. */
  ghost predicate HoldsExactly<V>(rows: Rows<V>, documentId: string, expected: seq<Row<V>>) {
    forall i: nat ::
      (ChunkId(documentId, i) in rows <==> i < |expected|)
      && (i < |expected| ==> rows[ChunkId(documentId, i)] == expected[i])
  }

  /** On a document the store does not know, storing leaves exactly the new rows. */
  lemma FirstStoringIsExact<V>(rows: Rows<V>, documentId: string, added: seq<Row<V>>)
    requires HoldsExactly(rows, documentId, [])
    ensures HoldsExactly(StoreRows(rows, documentId, added), documentId, added)
  {
    StoringReplacesExactly(rows, documentId, [], added);
  }

  /**
   * Storing new content over old leaves exactly the new rows if and only if there are at least as many
   * and they keep page and document of the rows they replace; otherwise stale rows or pages stay behind.
   */
  lemma StoringReplacesExactly<V>(rows: Rows<V>, documentId: string, old_: seq<Row<V>>, new_: seq<Row<V>>)
    requires HoldsExactly(rows, documentId, old_)
    ensures HoldsExactly(StoreRows(rows, documentId, new_), documentId, new_)
       <==> |old_| <= |new_|
            && forall i :: 0 <= i < |old_| ==>
                 new_[i].page == old_[i].page && new_[i].documentId == old_[i].documentId
  {
    hide ChunkId, StoreRows;
    var after := StoreRows(rows, documentId, new_);
    forall i: nat
      ensures Merged(after, documentId, old_, new_, i)
    {
      StoredAt(rows, documentId, old_, new_, i);
    }
    if HoldsExactly(after, documentId, new_) {
      forall i: nat | i < |old_|
        ensures i < |new_| && new_[i].page == old_[i].page && new_[i].documentId == old_[i].documentId
      {
        assert Merged(after, documentId, old_, new_, i);
      }
      if |old_| > 0 {
        assert Merged(after, documentId, old_, new_, |old_| - 1);
      }
    } else {
      var i: nat :| !((ChunkId(documentId, i) in after <==> i < |new_|)
                      && (i < |new_| ==> after[ChunkId(documentId, i)] == new_[i]));
      assert Merged(after, documentId, old_, new_, i);
    }
  }

  /** What id `i` holds once new rows are stored over old ones. */
  ghost predicate Merged<V>(after: Rows<V>, documentId: string, old_: seq<Row<V>>, new_: seq<Row<V>>, i: nat) {
    && (ChunkId(documentId, i) in after <==> i < |old_| || i < |new_|)
    && (i < |new_| ==>
          after[ChunkId(documentId, i)]
          == if i < |old_| then old_[i].(text := new_[i].text, embedding := new_[i].embedding) else new_[i])
  }

  lemma StoredAt<V>(rows: Rows<V>, documentId: string, old_: seq<Row<V>>, new_: seq<Row<V>>, i: nat)
    requires HoldsExactly(rows, documentId, old_)
    ensures Merged(StoreRows(rows, documentId, new_), documentId, old_, new_, i)
  {
    hide ChunkId, StoreRows;
    var id := ChunkId(documentId, i);
    StoreRowsPointwise(rows, documentId, new_, id);
    assert id in rows <==> i < |old_|;
    if i >= |new_| {
      forall j | 0 <= j < |new_|
        ensures id != ChunkId(documentId, j)
      {
        if id == ChunkId(documentId, j) {
          ChunkIdInjective(documentId, i, documentId, j);
        }
      }
    }
  }

  // ----- `index_document` ------------------------------------------------------------------------------

  /** The rows a document is stored as, when its embedding succeeds. */
  function RowsOf<V>(documentId: string, content: Content, defaults: Sizes, vectors: seq<V>): seq<Row<V>>
    requires !defaults.Rejected()
  {
    ZipRows(ChunksOf(documentId, content, defaults), vectors)
  }

  /** `chunk_multi_page_document` or `chunk_text`, as `index_document` dispatches them. */
  method ChunkContent(documentId: string, content: Content, defaults: Sizes) returns (r: Result<seq<Chunk>, string>)
    requires EndsOnAll(content, defaults)
    ensures r.Failure? <==> defaults.Rejected() && content != Pages([])
    ensures r.Success? && !defaults.Rejected() ==> Views(r.value) == ChunksOf(documentId, content, defaults)
    ensures r.Success? && defaults.Rejected() ==> r.value == []
  {
    match content
    case Pages(pages) =>
      NoItems(documentId, pages, defaults);
      assert pages == [] ==> pages == pages[..0];
      NoChunks();
      hide *;
      r := ChunkMultiPage(pages, documentId, defaults);
    case Text(text) =>
      assert Sizes(0, 0).Or(defaults) == defaults;
      hide *;
      r := ChunkText(text, documentId, None, Sizes(0, 0), defaults);
  }

  /** Chunk `i` is stored: its text and that text's vector, under the page and document the id had before, if any. */
  ghost predicate StoredChunk<V>(
    rows: Rows<V>, after: Rows<V>, documentId: string, views: seq<View>, vector: string -> V, i: nat)
    requires i < |views|
  {
    && views[i].chunkId in after
    && var row, id := after[views[i].chunkId], views[i].chunkId;
       && row.text == views[i].text && row.embedding == vector(views[i].text)
       && row.page == (if id in rows then rows[id].page else views[i].page)
       && row.documentId == (if id in rows then rows[id].documentId else documentId)
  }

  /** With every permitted batch answered, storing the rows of a document stores each of its chunks. */
  lemma AnsweredIndexingStoresEachChunk<V(!new)>(
    rows: Rows<V>, documentId: string, content: Content, defaults: Sizes, service: Service<V>, vector: string -> V,
    maxBatch: nat)
    requires !defaults.Rejected() && maxBatch >= 1 && AnswersBatches(service, vector, maxBatch)
    ensures var views := ChunksOf(documentId, content, defaults);
            var embedded := Embedded(service, TextsOf(views), maxBatch);
            && embedded.Success?
            && var after := StoreRows(rows, documentId, RowsOf(documentId, content, defaults, embedded.value));
               forall i :: 0 <= i < |views| ==> StoredChunk(rows, after, documentId, views, vector, i)
  {
    hide ChunkId, ChunksOf, EmbedAll, StoreRows, NamesChunk;
    var views := ChunksOf(documentId, content, defaults);
    PermittedBatchesSuffice(service, vector, TextsOf(views), maxBatch);
    var added := RowsOf(documentId, content, defaults, MapAll(vector, TextsOf(views)));
    var after := StoreRows(rows, documentId, added);
    forall i | 0 <= i < |views|
      ensures StoredChunk(rows, after, documentId, views, vector, i)
    {
      ChunksAreDense(documentId, content, defaults, i);
      StoreRowsPointwise(rows, documentId, added, views[i].chunkId);
    }
  }

  /** Chunk, embed, and store chunk by chunk. */
  method IndexDocument<V(!new)>(
    documentId: string, content: Content, defaults: Sizes, service: Service<V>, maxBatch: int,
    store: PostgresVectorStore<V>)
    returns (r: Result<nat, string>)
    requires EndsOnAll(content, defaults)
    modifies store
    ensures r.Failure? ==> store.rows == old(store.rows)
    ensures defaults.Rejected() ==>
      store.rows == old(store.rows) && if content == Pages([]) then r == Success(0) else r.Failure?
    ensures !defaults.Rejected() ==>
      var views := ChunksOf(documentId, content, defaults);
      var embedded := Embedded(service, TextsOf(views), maxBatch);
      if views == [] then r == Success(0) && store.rows == old(store.rows)
      else if embedded.Failure? then r == Failure(embedded.error)
      else
        && r == Success(|views|)
        && store.rows == StoreRows(old(store.rows), documentId, RowsOf(documentId, content, defaults, embedded.value))
    ensures forall vector: string -> V ::
      !defaults.Rejected() && maxBatch >= 1 && AnswersBatches(service, vector, maxBatch) ==>
        var views := ChunksOf(documentId, content, defaults);
        && r == Success(|views|)
        && forall i :: 0 <= i < |views| ==> StoredChunk(old(store.rows), store.rows, documentId, views, vector, i)
  {
    forall vector: string -> V |
      !defaults.Rejected() && maxBatch >= 1 && AnswersBatches(service, vector, maxBatch)
      ensures var views := ChunksOf(documentId, content, defaults);
              var embedded := Embedded(service, TextsOf(views), maxBatch);
              && embedded.Success?
              && var after := StoreRows(store.rows, documentId, RowsOf(documentId, content, defaults, embedded.value));
                 forall i :: 0 <= i < |views| ==> StoredChunk(store.rows, after, documentId, views, vector, i)
    {
      AnsweredIndexingStoresEachChunk(store.rows, documentId, content, defaults, service, vector, maxBatch);
    }
    hide AnswersBatches, StoredChunk;
    var chunked := ChunkContent(documentId, content, defaults);
    if chunked.Failure? {
      return Failure(chunked.error);
    }
    var chunks := chunked.value;
    if chunks == [] {
      return Success(0);
    }
    var texts := GatherTexts(chunks);
    var embedded := EmbedBatch(service, texts, maxBatch);
    if embedded.Failure? {
      return Failure(embedded.error);
    }
    hide ChunkId, ChunksOf, StoreRows, ZipRows, TextsOf, Embedded;
    forall i | 0 <= i < |chunks|
      ensures Views(chunks)[i].chunkId == ChunkId(documentId, i)
    {
      ChunksAreDense(documentId, content, defaults, i);
    }
    StoreAll(store, documentId, chunks, embedded.value);
    return Success(|chunks|);
  }

  /** `[c.text for c in chunks]`. */
  method GatherTexts(chunks: seq<Chunk>) returns (texts: seq<string>)
    ensures texts == TextsOf(Views(chunks))
  {
    texts := [];
    for i := 0 to |chunks|
      invariant |texts| == i && forall k :: 0 <= k < i ==> texts[k] == Views(chunks)[k].text
    {
      ReadChunk(chunks, i);
      texts := texts + [chunks[i].text];
    }
  }

  /** `for c, emb in zip(chunks, embeddings): store.add_chunk(...)`. */
  method StoreAll<V>(store: PostgresVectorStore<V>, documentId: string, chunks: seq<Chunk>, vectors: seq<V>)
    requires forall i :: 0 <= i < |chunks| ==> Views(chunks)[i].chunkId == ChunkId(documentId, i)
    modifies store
    ensures store.rows == StoreRows(old(store.rows), documentId, ZipRows(old(Views(chunks)), vectors))
  {
    hide ChunkId, StoreRows, Upsert;
    ghost var views := Views(chunks);
    ghost var added := ZipRows(views, vectors);
    var n := if |chunks| <= |vectors| then |chunks| else |vectors|;
    NothingStored(store.rows, documentId, added);
    for i := 0 to n
      invariant store.rows == StoreRows(old(store.rows), documentId, added[..i])
    {
      var c := chunks[i];
      ReadChunk(chunks, i);
      StoreOne(old(store.rows), documentId, added, i);
      assert Views(chunks)[i] == views[i];
      store.AddChunk(c.chunkId, Row(c.documentId, c.page, c.text, vectors[i]));
    }
    assert added[..n] == added;
  }

  lemma ReadChunk(chunks: seq<Chunk>, i: nat)
    requires i < |chunks|
    ensures var v := Views(chunks)[i]; var c := chunks[i];
            v == View(c.chunkId, c.documentId, c.text, c.chunkIndex, c.page)
  {
  }

  lemma NothingStored<V>(rows: Rows<V>, documentId: string, added: seq<Row<V>>)
    ensures StoreRows(rows, documentId, added[..0]) == rows
  {
  }

  lemma StoreOne<V>(rows: Rows<V>, documentId: string, added: seq<Row<V>>, i: nat)
    requires i < |added|
    ensures StoreRows(rows, documentId, added[..i + 1])
         == Upsert(StoreRows(rows, documentId, added[..i]), ChunkId(documentId, i), added[i])
  {
    hide ChunkId;
    assert added[..i + 1][..i] == added[..i];
  }

  /** Every stored row pairs a chunk's own text with that text's own vector, whatever the batch size. */
  lemma RowsPairTextsWithTheirVectors<V(!new)>(
    documentId: string, content: Content, defaults: Sizes, service: Service<V>, vector: string -> V, maxBatch: nat)
    requires !defaults.Rejected() && maxBatch >= 1 && AnswersEachText(service, vector)
    ensures var views := ChunksOf(documentId, content, defaults);
            var embedded := Embedded(service, TextsOf(views), maxBatch);
            embedded.Success? ==>
              var rows := RowsOf(documentId, content, defaults, embedded.value);
              && |rows| == |views|
              && forall i :: 0 <= i < |views| ==>
                   rows[i] == Row(documentId, views[i].page, views[i].text, vector(views[i].text))
  {
    hide ChunkId, ChunksOf, EmbedAll;
    var views := ChunksOf(documentId, content, defaults);
    BatchesKeepOrder(service, vector, TextsOf(views), maxBatch);
    forall i | 0 <= i < |views|
      ensures views[i].documentId == documentId
    {
      ChunksAreDense(documentId, content, defaults, i);
    }
  }

  /** One short answer is enough to store a later text's vector under an earlier chunk. */
  lemma ShortAnswerShiftsVectors<V>(service: Service<V>, a: View, b: View, vb: V)
    requires service([a.text]) == Success([]) && service([b.text]) == Success([vb])
    ensures Embedded(service, [a.text, b.text], 1) == Success([vb])
    ensures ZipRows([a, b], [vb]) == [Row(a.documentId, a.page, a.text, vb)]
  {
    var texts := [a.text, b.text];
    assert texts[..1] == [a.text] && texts[1..] == [b.text];
    assert [b.text][..1] == [b.text] && [b.text][1..] == [];
    assert EmbedAll(service, [], 1) == Success([]);
    assert [vb] + [] == [vb] && [] + [vb] == [vb];
    assert EmbedAll(service, [b.text], 1) == Prefixed([vb], EmbedAll(service, [], 1)) == Success([vb]);
    assert EmbedAll(service, texts, 1) == Prefixed([], Success([vb]));
    assert ZipRows([a, b][1..], [vb][1..]) == [];
  }

  /** Indexing unchanged content again leaves the store as it was. */
  lemma ReindexingUnchangedContent<V>(
    rows: Rows<V>, documentId: string, content: Content, defaults: Sizes, vectors: seq<V>)
    requires !defaults.Rejected()
    ensures var added := RowsOf(documentId, content, defaults, vectors);
            StoreRows(StoreRows(rows, documentId, added), documentId, added) == StoreRows(rows, documentId, added)
  {
    hide StoreRows;
    StoringTwiceIsStoringOnce(rows, documentId, RowsOf(documentId, content, defaults, vectors));
  }
}
