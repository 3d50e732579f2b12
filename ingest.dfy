/** The records stored when a chat message (`POST /api/messages`) or a page
    (`POST /api/pages`) is captured (server/index.js): the content is chunked
    with the default chunk size and each chunk becomes one record carrying its
    position, the number of chunks and the one timestamp of the request. */
module Ingest {
  import opened JsStrings
  import opened Chunker

  /** A record of the `Message` collection. */
  datatype MessageRecord = MessageRecord(content: string, timestamp: string, url: string, chunkIndex: nat, totalChunks: nat)

  /** A record of the `Page` collection; `url` and `title` are passed through
      as the request gave them, absent ones included. */
  datatype PageRecord = PageRecord(url: Option<string>, title: Option<string>, content: string,
                                   timestamp: string, chunkIndex: nat, totalChunks: nat)

  /** Why a handler fails before anything is stored: the request's `content`
      is missing or not a string, so `text.split` throws. */
  datatype IngestError = ContentNotText

  datatype Result<T> = Ok(value: T) | Err(error: IngestError)

  /** The chunk texts of a list of message records, in order. */
  function MessageContents(records: seq<MessageRecord>): (contents: seq<string>)
    ensures |contents| == |records|
    ensures forall i :: 0 <= i < |records| ==> contents[i] == records[i].content
  {
    if records == [] then [] else [records[0].content] + MessageContents(records[1..])
  }

  /** The chunk texts of a list of page records, in order. */
  function PageContents(records: seq<PageRecord>): (contents: seq<string>)
    ensures |contents| == |records|
    ensures forall i :: 0 <= i < |records| ==> contents[i] == records[i].content
  {
    if records == [] then [] else [records[0].content] + PageContents(records[1..])
  }

  /** One ingestion call's message records: numbered by position, all carrying
      the count, the timestamp and the url (or `'unknown'`). */
  ghost predicate MessageBatch(records: seq<MessageRecord>, timestamp: string, url: Option<string>) {
    forall i :: 0 <= i < |records| ==>
      records[i].chunkIndex == i && records[i].totalChunks == |records|
      && records[i].timestamp == timestamp && records[i].url == OrElse(url, "unknown")
  }

  /** One ingestion call's page records: numbered by position, all carrying
      the count, the timestamp, the url and the title. */
  ghost predicate PageBatch(records: seq<PageRecord>, timestamp: string, url: Option<string>, title: Option<string>) {
    forall i :: 0 <= i < |records| ==>
      records[i].chunkIndex == i && records[i].totalChunks == |records|
      && records[i].timestamp == timestamp && records[i].url == url && records[i].title == title
  }

  /** `chunks.map((chunk, index) => ({content: chunk, timestamp, url: url || 'unknown', chunkIndex: index, totalChunks}))`. */
  function MessageRecords(chunks: seq<string>, timestamp: string, url: Option<string>): (r: seq<MessageRecord>)
    ensures MessageBatch(r, timestamp, url)
    ensures MessageContents(r) == chunks
  {
    var r := seq(|chunks|, i requires 0 <= i < |chunks| =>
                MessageRecord(chunks[i], timestamp, OrElse(url, "unknown"), i, |chunks|));
    MessageContentsOf(r, chunks);
    r
  }

  /** `chunks.map((chunk, index) => ({url, title, content: chunk, timestamp, chunkIndex: index, totalChunks}))`. */
  function PageRecords(chunks: seq<string>, timestamp: string, url: Option<string>, title: Option<string>): (r: seq<PageRecord>)
    ensures PageBatch(r, timestamp, url, title)
    ensures PageContents(r) == chunks
  {
    var r := seq(|chunks|, i requires 0 <= i < |chunks| =>
                PageRecord(url, title, chunks[i], timestamp, i, |chunks|));
    PageContentsOf(r, chunks);
    r
  }

  lemma {:induction false} MessageContentsOf(records: seq<MessageRecord>, chunks: seq<string>)
    requires |records| == |chunks|
    requires forall i :: 0 <= i < |records| ==> records[i].content == chunks[i]
    ensures MessageContents(records) == chunks
  {
    if records != [] {
      MessageContentsOf(records[1..], chunks[1..]);
      assert [chunks[0]] + chunks[1..] == chunks;
    }
  }

  lemma {:induction false} PageContentsOf(records: seq<PageRecord>, chunks: seq<string>)
    requires |records| == |chunks|
    requires forall i :: 0 <= i < |records| ==> records[i].content == chunks[i]
    ensures PageContents(records) == chunks
  {
    if records != [] {
      PageContentsOf(records[1..], chunks[1..]);
      assert [chunks[0]] + chunks[1..] == chunks;
    }
  }

  /** The `POST /api/messages` handler up to the store calls: the records it
      asks the backend to create, or the error it fails with. */
  function StoreMessage(content: Option<string>, url: Option<string>, timestamp: string): (r: Result<seq<MessageRecord>>)
    ensures r.Err? <==> content.None?
    ensures r.Ok? ==> (MessageBatch(r.value, timestamp, url)
                   && MessageContents(r.value) == Chunks(content.value, DefaultChunkSize)
                   && |r.value| >= 1)
  {
    match content
    case None => Err(ContentNotText)
    case Some(text) =>
      Ok(MessageRecords(Chunks(text, DefaultChunkSize), timestamp, url))
  }

  /** The `POST /api/pages` handler up to the store calls. */
  function StorePage(url: Option<string>, title: Option<string>, content: Option<string>, timestamp: string): (r: Result<seq<PageRecord>>)
    ensures r.Err? <==> content.None?
    ensures r.Ok? ==> (PageBatch(r.value, timestamp, url, title)
                   && PageContents(r.value) == Chunks(content.value, DefaultChunkSize)
                   && |r.value| >= 1)
  {
    match content
    case None => Err(ContentNotText)
    case Some(text) =>
      Ok(PageRecords(Chunks(text, DefaultChunkSize), timestamp, url, title))
  }

  /** The set of chunk indices of a list of message records. */
  ghost function MessageIndices(records: seq<MessageRecord>): set<int> {
    set r | r in records :: r.chunkIndex as int
  }

  /** The chunk indices of a message batch are exactly 0..n-1, each once, and
      every record agrees with every other on the count and the timestamp. */
  lemma MessageBatchIndices(records: seq<MessageRecord>, timestamp: string, url: Option<string>)
    requires MessageBatch(records, timestamp, url)
    ensures forall k :: k in MessageIndices(records) <==> 0 <= k < |records|
    ensures forall i, j :: 0 <= i < |records| && 0 <= j < |records| && records[i].chunkIndex == records[j].chunkIndex ==> i == j
    ensures forall i, j :: 0 <= i < |records| && 0 <= j < |records| ==>
              records[i].totalChunks == records[j].totalChunks && records[i].timestamp == records[j].timestamp
  {
    forall k | 0 <= k < |records| ensures k in MessageIndices(records) {
      assert records[k] in records;
    }
  }

  /** The set of chunk indices of a list of page records. */
  ghost function PageIndices(records: seq<PageRecord>): set<int> {
    set r | r in records :: r.chunkIndex as int
  }

  /** The same for a page batch. */
  lemma PageBatchIndices(records: seq<PageRecord>, timestamp: string, url: Option<string>, title: Option<string>)
    requires PageBatch(records, timestamp, url, title)
    ensures forall k :: k in PageIndices(records) <==> 0 <= k < |records|
    ensures forall i, j :: 0 <= i < |records| && 0 <= j < |records| && records[i].chunkIndex == records[j].chunkIndex ==> i == j
    ensures forall i, j :: 0 <= i < |records| && 0 <= j < |records| ==>
              records[i].totalChunks == records[j].totalChunks && records[i].timestamp == records[j].timestamp
  {
    forall k | 0 <= k < |records| ensures k in PageIndices(records) {
      assert records[k] in records;
    }
  }

  /** An empty message is still stored, as a single record holding `"."`. */
  lemma EmptyMessageStoresPeriod(url: Option<string>, timestamp: string)
    ensures StoreMessage(Some(""), url, timestamp)
         == Ok([MessageRecord(".", timestamp, OrElse(url, "unknown"), 0, 1)])
  {
    ChunksOfEmptyText(DefaultChunkSize);
    var r := MessageRecords(["."], timestamp, url);
    assert |r| == |MessageContents(r)| == 1;
    assert r == [r[0]];
  }
}
