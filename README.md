# Verified model of the chunking, summary-joining and catalog-document logic

The repository holds two small pipelines built around hosted services.

- **Research report** (`Question3.py`). Page texts are scraped, then packed by `chunk_data` into chunks of about 3000 characters. Each chunk is summarised by a generative model, the summaries are joined with single spaces, and the result goes on to a report stage.
- **Catalog question answering** (`Question2.py`). A product catalog is capped to its first `MAX_CATALOG_SIZE` items (100 by default). Each item becomes one document text, `"{title} {brand} {description} {attribute_text}"`, which is then embedded and indexed.

This project models the deterministic logic inside that glue. It proves what that logic guarantees.

- `text.dfy` (module `Text`) holds the shared sequence vocabulary:
  - Python's `" ".join` (`JoinSpaced`);
  - the "each text followed by a space" accumulation of the chunker (`Padded`, and `PaddedEach` for a list of groups);
  - flattening (`Flatten`), which on a list of strings is their concatenation.
- `chunker.dfy` (module `Chunker`) models `chunk_data` (`Question3.py:44-56`):
  - `ChunkData` is the loop. It is proved equal to the reference function `Chunks`.
  - `Chunks` is the padded text of each group of `Groups`, which finishes the fold `Pack` over the input texts (`Question3.py:48-55`).
  - The same grouping is characterised declaratively by `GreedyPacking`. The fold's grouping is the only greedy packing of its input.
- `summaries.dfy` (module `Summaries`) models the per-chunk summaries and their join:
  - The generative model is a parameter `string -> Reply`, where a `Reply` is an answer text or a failure.
  - `Settle` picks the answer text, or the fixed `SummaryError` string `"Error summarizing data."` for a failed call (`Question3.py:37-42`). `SummaryAt` and `AllFailed` describe it.
  - `SummarizeEach` is the list comprehension (`Question3.py:59`) and `SummarizedData` the join (`Question3.py:60`). `SummaryAt`, `SummarizedLayout` and `SummarizedEmpty` describe them.
  - `ResearchSummary` composes the chunker with both (`Question3.py:58-60`).
- `catalog.dfy` (module `Catalog`) models the catalog side of `Question2.py`:
  - A catalog `Item` is a record of strings. Its `attributes` are a sequence of mappings, each a sequence of (key, value) pairs in insertion order.
  - `CapSetting` is the cap in effect, the setting or `DefaultCap` = 100 (`Question2.py:57`). `Truncate` is the slice `data[:cap]` with Python's semantics, negative caps included (`Question2.py:58`). `DefaultCatalogCap` describes the default.
  - `Pairs` lists every pair and `PairText` forms `"key value"` (`Question2.py:27-31`). `AttributeText` joins the pair texts (`Question2.py:27-31`). `PairTexts`, `PairOrder`, `PairAdjacent` and `AttributeTextEmpty` describe them.
  - `DocumentText` is the document of one item (`Question2.py:32`). `DocumentAsJoin` and `AttributeTextEmpty` describe it.
  - `BuildDocuments` is the loop (`Question2.py:25-33`), and `PrepareCatalog` the cap followed by the loop (`Question2.py:56-61`).

Behaviour of the code worth knowing, all proved below:
- A chunk can reach exactly the threshold. The `<` test is made before the separating space is added, so the bound is `<=`, not `<`.
- A first text that alone reaches the threshold produces an empty first chunk.
- Re-chunking a chunk is not idempotent, because every text gains a trailing space (`SingleTextChunks`).

## Model

| member | source | states |
|---|---|---|
| Chunker.ChunkData | Question3.py:44-56 | the loop (grow the current chunk while its length plus the item's stays below the threshold, otherwise flush it; flush a non-empty remainder at the end) returns exactly the chunks of the group-level reference fold |
| Chunker.PackInvariant | Question3.py:46-53 | after any non-empty input, the closed groups plus the non-empty open group form a greedy packing of the input, with at most one group per text plus one |
| Chunker.GroupsSplit | Question3.py:54-55 | for a non-empty input the open group is non-empty, so the final flush always emits it |
| Chunker.GroupsAreGreedyPacking | Question3.py:44-56 | the chunker's grouping partitions the input in order, has no groups for an empty input, has an empty first group exactly when the first text is oversized, admits each text only when it fits, and is greedy |
| Chunker.GreedyPackingUnique | Question3.py:44-56 | any grouping with those properties is exactly the chunker's grouping |
| Chunker.UniqueGrow | Question3.py:49-50 | a greedy packing whose last group holds several texts is the chunker's grouping: the last text was appended to the current chunk because it fit |
| Chunker.UniqueFlush | Question3.py:51-53 | a greedy packing whose last group is the last text alone is the chunker's grouping: that text did not fit, so the chunk before it was flushed |
| Chunker.GroupsPartition | Question3.py:46-56 | flattening the groups gives back the input texts in order: none is split, dropped, repeated or reordered |
| Chunker.ChunksConcat | Question3.py:46-56 | concatenating all chunks gives every input text followed by one space, in input order |
| Chunker.ChunksEmpty | Question3.py:46-56 | there are no chunks exactly when there are no input texts |
| Chunker.ChunkBound | Question3.py:49-53 | every chunk has length at most the threshold or is a single input text plus a space |
| Chunker.GroupsShape | Question3.py:47-55 | only the first group can be empty, exactly when the first text alone reaches the threshold |
| Chunker.ChunkShape | Question3.py:47-55 | the first chunk is empty exactly when the first text alone reaches the threshold; every later chunk is non-empty; every non-empty chunk ends with a space |
| Chunker.ChunkCount | Question3.py:48-55 | at most one chunk per input text plus one, and at most one per text when the first text fits |
| Chunker.ChunksGreedy | Question3.py:49-53 | each chunk's length plus the length of the next chunk's first text reaches the threshold, and the next chunk starts with that text and a space |
| Chunker.ChunksFit | Question3.py:49-50 | every text after the first in a chunk was admitted because the chunk so far plus the text stayed strictly below the threshold |
| Chunker.GroupsOfOne | Question3.py:48-55 | a single text forms the only group, or follows an empty group when it alone reaches the threshold |
| Chunker.SingleTextChunks | Question3.py:49-55 | one text yields that text plus a space, after an empty chunk when it reaches the threshold, so re-chunking is not idempotent |
| Chunker.ChunkExample | Question3.py:44-56 | 100 a's, 100 b's and 5000 c's with the default threshold 3000 give exactly the chunks `a…a b…b ` and `c…c ` |
| Text.JoinPadded | Question3.py:60 | a space-join plus one trailing space equals every item followed by a space |
| Text.JoinEmpty | Question3.py:60 | a space-join is empty exactly when there is nothing to join or the only item is empty |
| Text.JoinAt | Question3.py:60 | item `p` of a space-join sits at the offset of the padded earlier items and is followed by one space unless it is last |
| Text.ConcatPaddedEach | Question3.py:46-56 | concatenating the padded groups is the padded flattened items |
| Summaries.SummaryAt | Question3.py:59-60 | there is one summary per chunk, in chunk order; summary `k` is the model's answer for chunk `k`, or the error string when that call failed, followed by one space unless it is last |
| Summaries.SummarizedLayout | Question3.py:59-60 | the joined summaries plus one space are every summary followed by a space, in chunk order |
| Summaries.SummarizedEmpty | Question3.py:59-60 | the joined summary is empty exactly when there are no chunks or the only chunk's answer is empty |
| Summaries.AllFailed | Question3.py:40-42 | when every call fails, each chunk contributes the error string, and `n` chunks give `24n - 1` characters |
| Summaries.ResearchSummaryEmpty | Question3.py:58-60 | the text handed to the report stage is empty exactly when nothing was scraped or there is one chunk whose answer is empty |
| Summaries.ResearchSummaryAllFailed | Question3.py:58-60 | with a model that always fails, a non-empty scrape still gives a non-empty text of at most `24(n+1) - 1` characters for `n` texts |
| Catalog.Truncate | Question2.py:58 | Python's `data[:cap]`: the first `min(len, cap)` items for a non-negative cap, `len + cap` items (at least none) for a negative cap, each at its original position, the whole catalog when the cap is at least its length |
| Catalog.DefaultCatalogCap | Question2.py:57-58 | without a setting the first 100 items are kept, or the whole catalog when it is smaller |
| Catalog.PairTexts | Question2.py:28 | one text per pair, in pair order, each made of the key, exactly one space and the value |
| Catalog.BuildDocuments | Question2.py:25-33 | one document text per catalog item, in catalog order, each the item's title, brand, description and attribute text |
| Catalog.PrepareCatalog | Question2.py:56-61 | the catalog stage produces one document text for each item kept by the cap, in order |
| Catalog.PairOrder | Question2.py:27-31 | the pairs come in attribute-list order, then mapping order |
| Catalog.AttributeTextEmpty | Question2.py:27-32 | the attribute text is empty exactly when every mapping is empty, and then the document ends with the space after the description |
| Catalog.PairAdjacent | Question2.py:27-31 | each pair's key and value stand next to each other in the attribute text, separated by exactly one space, and the pair is followed by a space unless it is last |
| Catalog.DocumentAsJoin | Question2.py:32 | the document text is the space-join of title, brand, description and all pair texts, or that join of the three fields plus one space when there are no pairs |

## Left out

- Web fetching and paragraph extraction (`Question3.py:17-28`) are network I/O and HTML parsing. The scraped texts are an input sequence.
- The Gemini configuration and every model call (`Question3.py:31-42`) are foreign and nondeterministic. The model is a function parameter returning an answer or a failure. The prompt wording and `strip()` are not modelled: an answer stands for the already-stripped text.
- `generate_report` and `refine_and_organize` (`Question3.py:62-82`) are further model calls on the joined summary. Only the text they receive is modelled (`ResearchSummary`).
- Embeddings, the FAISS index, the OpenAI LLM and the RetrievalQA chain (`Question2.py:36-51`) are third-party SDKs with floating-point vectors.
- JSON loading, environment lookup and `int(...)` parsing (`Question2.py:18-21, 57`) are I/O. The catalog and the optional cap are parameters.
- Console printing (`Question2.py:73-79`, `Question3.py:27, 41, 95`) is not modelled.
- Chunker.ChunkData: the threshold is a natural number. A negative `chunk_size`, which Python would accept, is not modelled.
- Summaries.SummarizeEach: the model is a deterministic function of the chunk text alone. Two chunks with the same text get the same reply, and the `topic` that goes into the prompt is not an input.
- Titles, brands, descriptions, keys and values are strings. Python's `str()` formatting of other JSON values is not modelled.
- An attribute mapping is a sequence of pairs. The model does not enforce that a Python dict's keys are distinct.
