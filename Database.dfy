/**
 * `DatabaseService` (backend/src/services/database.ts): the `content` and
 * `embeddings` tables as an in-memory store. `content` is keyed uniquely by
 * url and written by upsert; `embeddings` is append-only. The queries are the
 * SQL statements of the service: an inner join of embeddings with their
 * content row, ordered and limited.
 *
 * pgvector's `<=>` cosine distance is a parameter `distance`; the clock
 * (`CURRENT_TIMESTAMP`) is a parameter `now`.
 */
module Database {
  import opened Wrappers
  import opened JsString
  import opened Sorting

  type Vector = seq<real>

  /** A row of `content`; `scrapedAt` is set on insert, `updatedAt` on insert and on every upsert. */
  datatype ContentRow = ContentRow(id: nat, url: String, title: String, content: String, scrapedAt: int, updatedAt: int)

  /** A row of `embeddings`. */
  datatype EmbeddingRow = EmbeddingRow(id: nat, contentId: int, chunkText: String, chunkIndex: int, embedding: Vector)

  /** An embedding with the content row it joins. */
  datatype Joined = Joined(row: EmbeddingRow, parent: ContentRow)

  /** A row of `searchSimilarContent`: `e.*`, `c.title`, `c.url` and the distance to the query. */
  datatype SearchHit = SearchHit(row: EmbeddingRow, title: String, url: String, distance: real)

  /** A row of `getAllEmbeddings`; `chunkLength` is SQL `LENGTH`, which counts characters. */
  datatype EmbeddingListing = EmbeddingListing(id: nat, chunkText: String, chunkIndex: int, title: String, url: String, chunkLength: nat)

  const DefaultSearchLimit: int := 5
  const DefaultListingLimit: int := 50
  const NegativeLimit: String := "LIMIT must not be negative"

  /** The `content` table's constraints: url is a unique key, ids are distinct and below the next serial value. */
  predicate ContentInvariant(rows: seq<ContentRow>, nextId: nat) {
    (forall i, j :: 0 <= i < j < |rows| ==> rows[i].url != rows[j].url && rows[i].id != rows[j].id) &&
    (forall i :: 0 <= i < |rows| ==> rows[i].id < nextId)
  }

  /** Embedding ids are serial: increasing in insertion order and below the next serial value. */
  predicate EmbeddingInvariant(rows: seq<EmbeddingRow>, nextId: nat) {
    (forall i, j :: 0 <= i < j < |rows| ==> rows[i].id < rows[j].id) &&
    (forall i :: 0 <= i < |rows| ==> rows[i].id < nextId)
  }

  predicate HasUrl(rows: seq<ContentRow>, url: String) {
    exists i :: 0 <= i < |rows| && rows[i].url == url
  }

  /** The position of the row with key `url`, the last one if (against the invariant) there were several. */
  function FindUrl(rows: seq<ContentRow>, url: String): (k: Option<nat>)
    ensures k.Some? ==> k.value < |rows| && rows[k.value].url == url
    ensures k.None? <==> !HasUrl(rows, url)
  {
    if rows == [] then None
    else if rows[|rows| - 1].url == url then Some(|rows| - 1)
    else
      var k := FindUrl(rows[..|rows| - 1], url);
      assert forall i :: 0 <= i < |rows| - 1 ==> rows[..|rows| - 1][i] == rows[i];
      k
  }

  /** The position of the row with id `id`: the join condition `e.content_id = c.id`. */
  function FindId(rows: seq<ContentRow>, id: int): (k: Option<nat>)
    ensures k.Some? ==> k.value < |rows| && rows[k.value].id == id
    ensures k.None? ==> forall i :: 0 <= i < |rows| ==> rows[i].id != id
  {
    if rows == [] then None
    else if rows[|rows| - 1].id == id then Some(|rows| - 1)
    else
      var k := FindId(rows[..|rows| - 1], id);
      assert forall i :: 0 <= i < |rows| - 1 ==> rows[..|rows| - 1][i] == rows[i];
      k
  }

  /** What `INSERT ... ON CONFLICT (url) DO UPDATE ... RETURNING id` leaves behind. */
  datatype Upserted = Upserted(rows: seq<ContentRow>, id: nat, nextId: nat)

  /** The upsert of `saveContent`: a new url is inserted with a fresh serial id; an existing one gets its title and content replaced and `updated_at` bumped. */
  function Upsert(rows: seq<ContentRow>, nextId: nat, url: String, title: String, body: String, now: int): (u: Upserted)
    ensures HasUrl(rows, url) ==> |u.rows| == |rows| && u.nextId == nextId
    ensures !HasUrl(rows, url) ==> |u.rows| == |rows| + 1 && u.id == nextId && u.nextId == nextId + 1
  {
    match FindUrl(rows, url)
    case Some(k) => Upserted(rows[k := rows[k].(title := title, content := body, updatedAt := now)], rows[k].id, nextId)
    case None => Upserted(rows + [ContentRow(nextId, url, title, body, now, now)], nextId, nextId + 1)
  }

  /** The upsert keeps url a unique key and the ids distinct. */
  lemma UpsertKeepsInvariant(rows: seq<ContentRow>, nextId: nat, url: String, title: String, body: String, now: int)
    requires ContentInvariant(rows, nextId)
    ensures var u := Upsert(rows, nextId, url, title, body, now);
      ContentInvariant(u.rows, u.nextId) && u.nextId >= nextId
  {
  }

  /** After the upsert exactly one row has the url; it holds the new title and content, the returned id and `updated_at = now`. */
  lemma UpsertStores(rows: seq<ContentRow>, nextId: nat, url: String, title: String, body: String, now: int)
    requires ContentInvariant(rows, nextId)
    ensures var u := Upsert(rows, nextId, url, title, body, now);
      exists k :: 0 <= k < |u.rows| && u.rows[k].url == url && u.rows[k].id == u.id &&
        u.rows[k].title == title && u.rows[k].content == body && u.rows[k].updatedAt == now &&
        forall i :: 0 <= i < |u.rows| && i != k ==> u.rows[i].url != url
  {
    var u := Upsert(rows, nextId, url, title, body, now);
    UpsertKeepsInvariant(rows, nextId, url, title, body, now);
    var k := if FindUrl(rows, url).Some? then FindUrl(rows, url).value else |rows|;
    assert u.rows[k].url == url;
  }

  /** An existing url keeps its row, position, id and `scraped_at`; a new url adds one row at the end; rows with other urls are untouched. */
  lemma UpsertKeepsIdentity(rows: seq<ContentRow>, nextId: nat, url: String, title: String, body: String, now: int)
    requires ContentInvariant(rows, nextId)
    ensures var u := Upsert(rows, nextId, url, title, body, now);
      && |u.rows| == (if HasUrl(rows, url) then |rows| else |rows| + 1)
      && (forall i :: 0 <= i < |rows| && rows[i].url != url ==> u.rows[i] == rows[i])
      && (forall i :: 0 <= i < |rows| && rows[i].url == url ==>
            u.id == rows[i].id && u.rows[i].id == rows[i].id && u.rows[i].scrapedAt == rows[i].scrapedAt)
      && (!HasUrl(rows, url) ==> u.id == nextId && u.rows[|rows|].scrapedAt == now)
  {
  }

  /** The inner join `embeddings e JOIN content c ON e.content_id = c.id`, in embedding order. */
  function JoinRows(embeddings: seq<EmbeddingRow>, content: seq<ContentRow>): (joined: seq<Joined>)
    ensures |joined| <= |embeddings|
  {
    if embeddings == [] then []
    else
      var e := embeddings[|embeddings| - 1];
      JoinRows(embeddings[..|embeddings| - 1], content) +
        match FindId(content, e.contentId)
        case Some(k) => [Joined(e, content[k])]
        case None => []
  }

  /** Every joined row pairs a stored embedding with the stored content row it points to. */
  lemma {:induction false} JoinSound(embeddings: seq<EmbeddingRow>, content: seq<ContentRow>)
    ensures forall j :: j in JoinRows(embeddings, content) ==>
      j.row in embeddings && j.parent in content && j.parent.id == j.row.contentId
  {
    if embeddings != [] {
      JoinSound(embeddings[..|embeddings| - 1], content);
    }
  }

  /** An embedding whose content row exists is in the join, with that row: nothing but orphans is lost. */
  lemma {:induction false} JoinComplete(embeddings: seq<EmbeddingRow>, content: seq<ContentRow>, nextId: nat)
    requires ContentInvariant(content, nextId)
    ensures forall e, c :: e in embeddings && c in content && c.id == e.contentId ==> Joined(e, c) in JoinRows(embeddings, content)
  {
    if embeddings != [] {
      var prefix := embeddings[..|embeddings| - 1];
      JoinComplete(prefix, content, nextId);
      forall e, c | e in embeddings && c in content && c.id == e.contentId
        ensures Joined(e, c) in JoinRows(embeddings, content)
      {
        if e !in prefix {
          assert e == embeddings[|embeddings| - 1];
        }
      }
    }
  }

  /** `ORDER BY e.embedding <=> query`. */
  predicate ByDistance(a: SearchHit, b: SearchHit) {
    a.distance <= b.distance
  }

  /** `ORDER BY c.id, e.chunk_index`. */
  predicate ByContentThenIndex(a: Joined, b: Joined) {
    a.parent.id < b.parent.id || (a.parent.id == b.parent.id && a.row.chunkIndex <= b.row.chunkIndex)
  }

  /** `ORDER BY scraped_at DESC`. */
  predicate NewestFirst(a: ContentRow, b: ContentRow) {
    a.scrapedAt >= b.scrapedAt
  }

  lemma DistanceIsPreorder()
    ensures TotalPreorder(ByDistance)
  {
  }

  lemma ContentThenIndexIsPreorder()
    ensures TotalPreorder(ByContentThenIndex)
  {
  }

  lemma NewestFirstIsPreorder()
    ensures TotalPreorder(NewestFirst)
  {
  }

  function Hits(joined: seq<Joined>, query: Vector, distance: (Vector, Vector) -> real): (hits: seq<SearchHit>)
    ensures |hits| == |joined|
  {
    seq(|joined|, i requires 0 <= i < |joined| =>
      SearchHit(joined[i].row, joined[i].parent.title, joined[i].parent.url, distance(joined[i].row.embedding, query)))
  }

  /** `searchSimilarContent`: the joined rows nearest to the query first, at most `limit` of them; a negative LIMIT is an SQL error. */
  function Search(embeddings: seq<EmbeddingRow>, content: seq<ContentRow>, distance: (Vector, Vector) -> real, query: Vector, limit: int): (r: Result<seq<SearchHit>, String>)
    ensures r.Success? <==> limit >= 0
    ensures r.Success? ==> |r.value| <= limit
  {
    if limit < 0 then Failure(NegativeLimit)
    else Success(Take(SortBy(Hits(JoinRows(embeddings, content), query, distance), ByDistance), limit))
  }

  /** The search returns, nearest first, as many joined rows as the join has up to `limit`. */
  lemma SearchSorted(embeddings: seq<EmbeddingRow>, content: seq<ContentRow>, distance: (Vector, Vector) -> real, query: Vector, limit: int)
    requires limit >= 0
    ensures var hits := Hits(JoinRows(embeddings, content), query, distance);
      var r := Search(embeddings, content, distance, query, limit);
      && r.Success?
      && SortedBy(r.value, ByDistance)
      && multiset(r.value) <= multiset(hits)
      && |r.value| == (if |hits| <= limit then |hits| else limit)
  {
    var hits := Hits(JoinRows(embeddings, content), query, distance);
    DistanceIsPreorder();
    TopRows(hits, ByDistance, limit);
  }

  /** No joined row left out of the search is nearer to the query than a row returned. */
  lemma SearchKeepsNearest(embeddings: seq<EmbeddingRow>, content: seq<ContentRow>, distance: (Vector, Vector) -> real, query: Vector, limit: int)
    requires limit >= 0
    ensures var hits := Hits(JoinRows(embeddings, content), query, distance);
      var r := Search(embeddings, content, distance, query, limit).value;
      forall h, o :: h in r && o in hits && o !in r ==> h.distance <= o.distance
  {
    var hits := Hits(JoinRows(embeddings, content), query, distance);
    var r := Take(SortBy(hits, ByDistance), limit);
    assert Search(embeddings, content, distance, query, limit).value == r;
    DistanceIsPreorder();
    TopRowsBeatOmitted(hits, ByDistance, limit);
    forall h, o | h in r && o in hits && o !in r
      ensures h.distance <= o.distance
    {
      assert ByDistance(h, o);
    }
  }

  /** Every search hit carries the title and url of the content row its embedding points to. */
  lemma SearchHitsHaveParents(embeddings: seq<EmbeddingRow>, content: seq<ContentRow>, distance: (Vector, Vector) -> real, query: Vector, limit: int)
    requires limit >= 0
    ensures forall h :: h in Search(embeddings, content, distance, query, limit).value ==>
      h.row in embeddings && h.distance == distance(h.row.embedding, query) &&
      exists c :: c in content && c.id == h.row.contentId && c.title == h.title && c.url == h.url
  {
    var joined := JoinRows(embeddings, content);
    var hits := Hits(joined, query, distance);
    JoinSound(embeddings, content);
    SearchSorted(embeddings, content, distance, query, limit);
    var r := Search(embeddings, content, distance, query, limit).value;
    forall h | h in r
      ensures h.row in embeddings && h.distance == distance(h.row.embedding, query) &&
        exists c :: c in content && c.id == h.row.contentId && c.title == h.title && c.url == h.url
    {
      assert h in multiset(hits);
      var i :| 0 <= i < |hits| && hits[i] == h;
      assert joined[i] in joined;
    }
  }

  function Listing(j: Joined): EmbeddingListing {
    EmbeddingListing(j.row.id, j.row.chunkText, j.row.chunkIndex, j.parent.title, j.parent.url, |j.row.chunkText|)
  }

  /** The joined rows `getAllEmbeddings` returns: by content id then chunk index, at most `limit`. */
  function ListedRows(embeddings: seq<EmbeddingRow>, content: seq<ContentRow>, limit: nat): (rows: seq<Joined>)
    ensures |rows| <= limit
  {
    Take(SortBy(JoinRows(embeddings, content), ByContentThenIndex), limit)
  }

  /** `getAllEmbeddings`: the listed rows as `e.id, e.chunk_text, e.chunk_index, c.title, c.url, LENGTH(e.chunk_text)`. */
  function ListEmbeddings(embeddings: seq<EmbeddingRow>, content: seq<ContentRow>, limit: int): (r: Result<seq<EmbeddingListing>, String>)
    ensures r.Success? <==> limit >= 0
    ensures limit >= 0 ==> |r.value| == |ListedRows(embeddings, content, limit)|
    ensures limit >= 0 ==> forall i :: 0 <= i < |r.value| ==> r.value[i] == Listing(ListedRows(embeddings, content, limit)[i])
  {
    if limit < 0 then Failure(NegativeLimit)
    else
      var rows := ListedRows(embeddings, content, limit);
      Success(seq(|rows|, i requires 0 <= i < |rows| => Listing(rows[i])))
  }

  /** The listed rows are joined rows ordered by content id then chunk index, as many as the join has up to `limit`. */
  lemma ListingOrdered(embeddings: seq<EmbeddingRow>, content: seq<ContentRow>, limit: int)
    requires limit >= 0
    ensures var joined := JoinRows(embeddings, content);
      var rows := ListedRows(embeddings, content, limit);
      && SortedBy(rows, ByContentThenIndex)
      && multiset(rows) <= multiset(joined)
      && |rows| == (if |joined| <= limit then |joined| else limit)
      && (forall h, o :: h in rows && o in joined && o !in rows ==> ByContentThenIndex(h, o))
  {
    var joined := JoinRows(embeddings, content);
    ContentThenIndexIsPreorder();
    TopRows(joined, ByContentThenIndex, limit);
    TopRowsBeatOmitted(joined, ByContentThenIndex, limit);
  }

  /** `getAllContent`: every content row, newest `scraped_at` first. */
  function AllContent(rows: seq<ContentRow>): (all: seq<ContentRow>)
    ensures |all| == |rows|
  {
    SortBy(rows, NewestFirst)
  }

  lemma AllContentOrdered(rows: seq<ContentRow>)
    ensures multiset(AllContent(rows)) == multiset(rows)
    ensures forall i, j :: 0 <= i < j < |AllContent(rows)| ==> AllContent(rows)[i].scrapedAt >= AllContent(rows)[j].scrapedAt
  {
    NewestFirstIsPreorder();
    SortByCorrect(rows, NewestFirst);
  }

  /** With url a unique key there are as many urls as rows. */
  lemma DistinctUrls(rows: seq<ContentRow>, nextId: nat)
    requires ContentInvariant(rows, nextId)
    ensures |set i | 0 <= i < |rows| :: rows[i].url| == |rows|
  {
    UrlCount(rows);
  }

  ghost function UrlsOf(rows: seq<ContentRow>): set<String> {
    set i | 0 <= i < |rows| :: rows[i].url
  }

  /** The urls of a list of rows that differ pairwise number as many as the rows. */
  lemma {:induction false} UrlCount(rows: seq<ContentRow>)
    requires forall i, j :: 0 <= i < j < |rows| ==> rows[i].url != rows[j].url
    ensures |UrlsOf(rows)| == |rows|
  {
    if rows != [] {
      var p := rows[..|rows| - 1];
      var last := rows[|rows| - 1];
      UrlCount(p);
      UrlSetSnoc(rows);
      forall i | 0 <= i < |p| ensures p[i].url != last.url {
        assert p[i] == rows[i];
      }
    }
  }

  lemma UrlSetSnoc(rows: seq<ContentRow>)
    requires rows != []
    ensures UrlsOf(rows) == UrlsOf(rows[..|rows| - 1]) + {rows[|rows| - 1].url}
  {
    var p := rows[..|rows| - 1];
    forall u | u in UrlsOf(rows) ensures u in UrlsOf(p) + {rows[|rows| - 1].url} {
      var i :| 0 <= i < |rows| && rows[i].url == u;
      if i < |p| { assert p[i].url == u; }
    }
  }

  /** The in-memory store behind `DatabaseService`. */
  class Store {
    var content: seq<ContentRow>
    var embeddings: seq<EmbeddingRow>
    var nextContentId: nat
    var nextEmbeddingId: nat

    ghost predicate Valid()
      reads this
    {
      ContentInvariant(content, nextContentId) && EmbeddingInvariant(embeddings, nextEmbeddingId)
    }

    /** Empty tables whose serial ids start at 1. */
    constructor()
      ensures Valid()
      ensures content == [] && embeddings == []
      ensures nextContentId == 1 && nextEmbeddingId == 1
    {
      content := [];
      embeddings := [];
      nextContentId := 1;
      nextEmbeddingId := 1;
    }

    /** `getContentCount`: `SELECT COUNT(*) FROM content`. */
    function ContentCount(): nat
      reads this
    {
      |content|
    }

    /** `getEmbeddingCount`: `SELECT COUNT(*) FROM embeddings`. */
    function EmbeddingCount(): nat
      reads this
    {
      |embeddings|
    }

    /** With url a unique key, the number of content rows is the number of scraped urls. */
    lemma ContentCountIsUrlCount()
      requires Valid()
      ensures ContentCount() == |set i | 0 <= i < |content| :: content[i].url|
    {
      DistinctUrls(content, nextContentId);
    }

    /** `getAllContent`. */
    function GetAllContent(): (rows: seq<ContentRow>)
      reads this
      ensures |rows| == |content|
    {
      AllContent(content)
    }

    /** `searchSimilarContent(embedding, limit = 5)`. */
    function SearchSimilarContent(distance: (Vector, Vector) -> real, query: Vector, limit: int := DefaultSearchLimit): (r: Result<seq<SearchHit>, String>)
      reads this
      ensures r.Failure? <==> limit < 0
      ensures r.Success? ==> |r.value| <= limit && |r.value| <= |embeddings|
    {
      Search(embeddings, content, distance, query, limit)
    }

    /** `getAllEmbeddings(limit = 50)`. */
    function GetAllEmbeddings(limit: int := DefaultListingLimit): (r: Result<seq<EmbeddingListing>, String>)
      reads this
      ensures r.Failure? <==> limit < 0
      ensures r.Success? ==> |r.value| <= limit
    {
      ListEmbeddings(embeddings, content, limit)
    }

    /** `saveContent`: the upsert on url; returns the id of the row inserted or updated. */
    method SaveContent(url: String, title: String, body: String, now: int) returns (id: nat)
      requires Valid()
      modifies this
      ensures Valid()
      ensures var u := Upsert(old(content), old(nextContentId), url, title, body, now);
        content == u.rows && id == u.id && nextContentId == u.nextId
      ensures embeddings == old(embeddings) && nextEmbeddingId == old(nextEmbeddingId)
      ensures ContentCount() == old(ContentCount()) + (if HasUrl(old(content), url) then 0 else 1)
    {
      UpsertKeepsInvariant(content, nextContentId, url, title, body, now);
      UpsertKeepsIdentity(content, nextContentId, url, title, body, now);
      var u := Upsert(content, nextContentId, url, title, body, now);
      content, nextContentId := u.rows, u.nextId;
      id := u.id;
    }

    /** `saveEmbedding`: appends one row with a fresh serial id; nothing is replaced or deleted. */
    method SaveEmbedding(contentId: int, chunkText: String, chunkIndex: int, embedding: Vector)
      requires Valid()
      modifies this
      ensures Valid()
      ensures embeddings == old(embeddings) + [EmbeddingRow(old(nextEmbeddingId), contentId, chunkText, chunkIndex, embedding)]
      ensures nextEmbeddingId == old(nextEmbeddingId) + 1
      ensures content == old(content) && nextContentId == old(nextContentId)
      ensures EmbeddingCount() == old(EmbeddingCount()) + 1
    {
      embeddings := embeddings + [EmbeddingRow(nextEmbeddingId, contentId, chunkText, chunkIndex, embedding)];
      nextEmbeddingId := nextEmbeddingId + 1;
    }
  }
}
