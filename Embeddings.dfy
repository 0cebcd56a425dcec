/**
 * `EmbeddingsService` (backend/src/services/embeddings.ts) beyond `chunkText`:
 * the job that embeds every stored page chunk by chunk, and the search
 * wrapper that turns a question into a store query.
 *
 * The OpenAI embedding call is the parameter `embed`; a `Failure` stands for
 * any exception thrown while embedding or saving one chunk.
 */
module Embeddings {
  import opened Wrappers
  import opened JsString
  import opened Chunker
  import opened Database

  const DefaultSearchResults: int := 3

  /** The text chunked for a page: `${item.title}\n\n${item.content}`. */
  function FullText(item: ContentRow): (text: String)
    ensures |text| == |item.title| + 2 + |item.content|
    ensures text[..|item.title|] == item.title && text[|item.title| + 2..] == item.content
  {
    item.title + "\n\n" + item.content
  }

  /** What `saveEmbedding` is called with: the row without its serial id. */
  datatype Payload = Payload(contentId: int, chunkText: String, chunkIndex: int, embedding: Vector)

  function PayloadOf(e: EmbeddingRow): Payload {
    Payload(e.contentId, e.chunkText, e.chunkIndex, e.embedding)
  }

  /** The payloads of stored rows, in order. */
  function Payloads(rows: seq<EmbeddingRow>): (ps: seq<Payload>)
    ensures |ps| == |rows|
    ensures forall i :: 0 <= i < |rows| ==> ps[i] == PayloadOf(rows[i])
  {
    seq(|rows|, i requires 0 <= i < |rows| => PayloadOf(rows[i]))
  }

  /** The rows saved for the first `n` chunks of page `id`: chunk `i` with index `i`, unless embedding it failed. */
  function ChunkPayloads(id: int, chunks: seq<String>, n: nat, embed: String -> Result<Vector, String>): (ps: seq<Payload>)
    requires n <= |chunks|
    ensures |ps| <= n
  {
    if n == 0 then []
    else
      ChunkPayloads(id, chunks, n - 1, embed) +
        match embed(chunks[n - 1])
        case Success(v) => [Payload(id, chunks[n - 1], n - 1, v)]
        case Failure(_) => []
  }

  /** One more chunk adds its row when, and only when, its embedding succeeded. */
  lemma ChunkPayloadsStep(id: int, chunks: seq<String>, n: nat, embed: String -> Result<Vector, String>)
    requires 0 < n <= |chunks|
    ensures ChunkPayloads(id, chunks, n, embed) ==
      ChunkPayloads(id, chunks, n - 1, embed) +
        (if embed(chunks[n - 1]).Success? then [Payload(id, chunks[n - 1], n - 1, embed(chunks[n - 1]).value)] else [])
  {
  }

  function ItemChunks(item: ContentRow): seq<String> {
    Chunks(FullText(item), DefaultMaxChunkSize)
  }

  /** The rows saved for one page. */
  function ItemPayloads(item: ContentRow, embed: String -> Result<Vector, String>): (ps: seq<Payload>)
    ensures |ps| <= |ItemChunks(item)|
  {
    ChunkPayloads(item.id, ItemChunks(item), |ItemChunks(item)|, embed)
  }

  /** The rows the whole job saves, page after page in the order given. */
  function JobPayloads(items: seq<ContentRow>, embed: String -> Result<Vector, String>): seq<Payload> {
    if items == [] then []
    else JobPayloads(items[..|items| - 1], embed) + ItemPayloads(items[|items| - 1], embed)
  }


  /**
   * `generateEmbeddingsForAllContent`: for every page in `getAllContent` order,
   * chunk title and content and save one row per chunk whose embedding
   * succeeded, with the chunk's position as its index. Pages are left alone and
   * nothing is deleted, so the rows of an earlier run stay.
   */
  method GenerateEmbeddingsForAllContent(store: Store, embed: String -> Result<Vector, String>)
    requires store.Valid()
    modifies store
    ensures store.Valid()
    ensures store.content == old(store.content) && store.nextContentId == old(store.nextContentId)
    ensures |store.embeddings| >= |old(store.embeddings)|
    ensures store.embeddings[..|old(store.embeddings)|] == old(store.embeddings)
    ensures Payloads(store.embeddings[|old(store.embeddings)|..]) == JobPayloads(AllContent(old(store.content)), embed)
  {
    var content := store.GetAllContent();
    ghost var before := store.embeddings;
    for k := 0 to |content|
      invariant store.Valid()
      invariant store.content == old(store.content) && store.nextContentId == old(store.nextContentId)
      invariant |store.embeddings| >= |before| && store.embeddings[..|before|] == before
      invariant Payloads(store.embeddings[|before|..]) == JobPayloads(content[..k], embed)
    {
      ghost var rows := store.embeddings;
      EmbedItem(store, content[k], embed);
      JobPayloadsStep(content, k, embed);
      AppendedRun(before, rows, store.embeddings);
    }
    assert content[..|content|] == content;
  }

  /** One page of the job: chunk `${title}\n\n${content}` and embed its chunks. */
  method EmbedItem(store: Store, item: ContentRow, embed: String -> Result<Vector, String>)
    requires store.Valid()
    modifies store
    ensures store.Valid()
    ensures store.content == old(store.content) && store.nextContentId == old(store.nextContentId)
    ensures |store.embeddings| >= |old(store.embeddings)|
    ensures store.embeddings[..|old(store.embeddings)|] == old(store.embeddings)
    ensures Payloads(store.embeddings[|old(store.embeddings)|..]) == ItemPayloads(item, embed)
  {
    var fullText := item.title + "\n\n" + item.content;
    var chunks := ChunkText(fullText);
    EmbedChunks(store, item.id, chunks, embed);
  }

  lemma JobPayloadsStep(items: seq<ContentRow>, k: nat, embed: String -> Result<Vector, String>)
    requires k < |items|
    ensures JobPayloads(items[..k + 1], embed) == JobPayloads(items[..k], embed) + ItemPayloads(items[k], embed)
  {
    assert items[..k + 1][..k] == items[..k];
  }

  /** The inner loop of `generateEmbeddingsForAllContent`: embed and save the chunks of page `id` in order, skipping a chunk whose embedding fails. */
  method EmbedChunks(store: Store, id: int, chunks: seq<String>, embed: String -> Result<Vector, String>)
    requires store.Valid()
    modifies store
    ensures store.Valid()
    ensures store.content == old(store.content) && store.nextContentId == old(store.nextContentId)
    ensures |store.embeddings| >= |old(store.embeddings)|
    ensures store.embeddings[..|old(store.embeddings)|] == old(store.embeddings)
    ensures Payloads(store.embeddings[|old(store.embeddings)|..]) == ChunkPayloads(id, chunks, |chunks|, embed)
  {
    ghost var before := store.embeddings;
    for i := 0 to |chunks|
      invariant store.Valid()
      invariant store.content == old(store.content) && store.nextContentId == old(store.nextContentId)
      invariant |store.embeddings| >= |before| && store.embeddings[..|before|] == before
      invariant Payloads(store.embeddings[|before|..]) == ChunkPayloads(id, chunks, i, embed)
    {
      ChunkPayloadsStep(id, chunks, i + 1, embed);
      var r := embed(chunks[i]);
      if r.Success? {
        ghost var rows := store.embeddings;
        store.SaveEmbedding(id, chunks[i], i, r.value);
        AppendedPayloads(before, rows, store.embeddings[|rows|]);
      }
    }
  }

  /** Rows appended after `rows` extend the payloads of the rows appended after `before`. */
  lemma AppendedRun(before: seq<EmbeddingRow>, rows: seq<EmbeddingRow>, now: seq<EmbeddingRow>)
    requires |rows| >= |before| && rows[..|before|] == before
    requires |now| >= |rows| && now[..|rows|] == rows
    ensures |now| >= |before| && now[..|before|] == before
    ensures Payloads(now[|before|..]) == Payloads(rows[|before|..]) + Payloads(now[|rows|..])
  {
    assert now[|before|..] == rows[|before|..] + now[|rows|..];
    PayloadsAppend(rows[|before|..], now[|rows|..]);
  }

  lemma PayloadsAppend(xs: seq<EmbeddingRow>, ys: seq<EmbeddingRow>)
    ensures Payloads(xs + ys) == Payloads(xs) + Payloads(ys)
  {
    assert forall i :: 0 <= i < |xs + ys| ==> (xs + ys)[i] == if i < |xs| then xs[i] else ys[i - |xs|];
  }

  /** Appending a row to the table appends its payload to the rows added since `before`. */
  lemma AppendedPayloads(before: seq<EmbeddingRow>, rows: seq<EmbeddingRow>, e: EmbeddingRow)
    requires |rows| >= |before| && rows[..|before|] == before
    ensures |rows + [e]| >= |before| && (rows + [e])[..|before|] == before
    ensures Payloads((rows + [e])[|before|..]) == Payloads(rows[|before|..]) + [PayloadOf(e)]
  {
    assert (rows + [e])[|before|..] == rows[|before|..] + [e];
    PayloadsAppend(rows[|before|..], [e]);
  }

  /** The saved chunk indices of a page increase strictly, lie in `0..n-1`, and each row holds chunk `i` of the page. */
  lemma {:induction false} ChunkPayloadsIndexed(id: int, chunks: seq<String>, n: nat, embed: String -> Result<Vector, String>)
    requires n <= |chunks|
    ensures forall a, b :: 0 <= a < b < |ChunkPayloads(id, chunks, n, embed)| ==>
      ChunkPayloads(id, chunks, n, embed)[a].chunkIndex < ChunkPayloads(id, chunks, n, embed)[b].chunkIndex
    ensures forall a :: 0 <= a < |ChunkPayloads(id, chunks, n, embed)| ==>
      SavedFrom(ChunkPayloads(id, chunks, n, embed)[a], id, chunks) && ChunkPayloads(id, chunks, n, embed)[a].chunkIndex < n
  {
    if n > 0 {
      ChunkPayloadsIndexed(id, chunks, n - 1, embed);
      ChunkPayloadsStep(id, chunks, n, embed);
    }
  }

  /** Chunk `i` of a page is saved exactly when embedding it succeeds: a failure leaves a gap in the indices. */
  lemma {:induction false} ChunkSavedIff(id: int, chunks: seq<String>, n: nat, embed: String -> Result<Vector, String>, i: int)
    requires n <= |chunks| && 0 <= i < n
    ensures (exists a :: 0 <= a < |ChunkPayloads(id, chunks, n, embed)| && ChunkPayloads(id, chunks, n, embed)[a].chunkIndex == i)
      <==> embed(chunks[i]).Success?
  {
    var ps := ChunkPayloads(id, chunks, n, embed);
    var prefix := ChunkPayloads(id, chunks, n - 1, embed);
    ChunkPayloadsStep(id, chunks, n, embed);
    ChunkPayloadsIndexed(id, chunks, n - 1, embed);
    assert forall a :: 0 <= a < |prefix| ==> ps[a] == prefix[a];
    if i < n - 1 {
      ChunkSavedIff(id, chunks, n - 1, embed, i);
      if embed(chunks[n - 1]).Success? {
        assert ps[|prefix|].chunkIndex == n - 1;
      }
    } else if embed(chunks[i]).Success? {
      assert ps[|prefix|].chunkIndex == i;
    }
  }

  /** When no embedding fails, a page's rows carry the indices `0..n-1` without gaps, in order, one per chunk. */
  lemma {:induction false} NoFailureNoGaps(id: int, chunks: seq<String>, n: nat, embed: String -> Result<Vector, String>)
    requires n <= |chunks|
    requires forall i :: 0 <= i < n ==> embed(chunks[i]).Success?
    ensures |ChunkPayloads(id, chunks, n, embed)| == n
    ensures forall i :: 0 <= i < n ==>
      ChunkPayloads(id, chunks, n, embed)[i].chunkIndex == i && ChunkPayloads(id, chunks, n, embed)[i].chunkText == chunks[i]
  {
    if n > 0 {
      NoFailureNoGaps(id, chunks, n - 1, embed);
    }
  }

  /** A row saved for the chunks `chunks` of page `id`. */
  predicate SavedFrom(p: Payload, id: int, chunks: seq<String>) {
    p.contentId == id && 0 <= p.chunkIndex < |chunks| && p.chunkText == chunks[p.chunkIndex]
  }

  /** Every row saved for a page holds that page's id and one of its chunks, at that chunk's index. */
  lemma ItemPayloadsFrom(item: ContentRow, embed: String -> Result<Vector, String>)
    ensures forall p :: p in ItemPayloads(item, embed) ==> SavedFrom(p, item.id, ItemChunks(item))
  {
    var chunks := ItemChunks(item);
    var ps := ChunkPayloads(item.id, chunks, |chunks|, embed);
    ChunkPayloadsIndexed(item.id, chunks, |chunks|, embed);
    assert ps == ItemPayloads(item, embed);
    forall p | p in ps
      ensures SavedFrom(p, item.id, chunks)
    {
      var a :| 0 <= a < |ps| && ps[a] == p;
      assert 0 <= ps[a].chunkIndex < |chunks|;
      assert ps[a].contentId == item.id;
    }
  }

  /** Every row of the job belongs to a page it was given, and holds one of that page's chunks. */
  lemma {:induction false} JobPayloadsFromItems(items: seq<ContentRow>, embed: String -> Result<Vector, String>)
    ensures forall p :: p in JobPayloads(items, embed) ==>
      exists item :: item in items && SavedFrom(p, item.id, ItemChunks(item))
  {
    if items != [] {
      var prefix := items[..|items| - 1];
      var last := items[|items| - 1];
      JobPayloadsFromItems(prefix, embed);
      ItemPayloadsFrom(last, embed);
      assert JobPayloads(items, embed) == JobPayloads(prefix, embed) + ItemPayloads(last, embed);
      forall p | p in JobPayloads(items, embed)
        ensures exists item :: item in items && SavedFrom(p, item.id, ItemChunks(item))
      {
        if p in JobPayloads(prefix, embed) {
          var item :| item in prefix && SavedFrom(p, item.id, ItemChunks(item));
          assert item in items;
        } else {
          assert last in items;
        }
      }
    }
  }

  /**
   * `searchSimilarContent(query, limit = 3)`: the store's nearest rows to the
   * query's embedding; any error (the embedding call, or the query itself)
   * gives no rows instead of an exception.
   */
  function SearchSimilarContent(store: Store, embed: String -> Result<Vector, String>, distance: (Vector, Vector) -> real, query: String, limit: int := DefaultSearchResults): (hits: seq<SearchHit>)
    reads store
    ensures embed(query).Failure? || limit < 0 ==> hits == []
    ensures limit >= 0 ==> |hits| <= limit
    ensures embed(query).Success? && limit >= 0 ==> hits == Search(store.embeddings, store.content, distance, embed(query).value, limit).value
  {
    match embed(query)
    case Failure(_) => []
    case Success(v) =>
      match store.SearchSimilarContent(distance, v, limit)
      case Failure(_) => []
      case Success(rows) => rows
  }
}
