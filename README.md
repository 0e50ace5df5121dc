# Notes app: note store and semantic search, modelled in Dafny

The notes app has two back ends. They share one SQLite database.

- The Express server keeps a `notes` table. It offers five routes: create, list, literal search, update and soft delete.
- The Flask embedding service keeps two things. The first is an in-memory list of `(note_id, embedding)` pairs, called the cache. The second is a `note_embeddings` table that maps a note id to its stored embedding. The service answers semantic queries by scoring every cache entry against the encoded query. It keeps the cache and the table up to date through add, remove and update routes, and rebuilds both at start-up.

The model has five modules:

- `Common` holds the route outcomes (`Ok`, `BadRequest`, `NotFound`, `StorageError`). It also holds the truthiness tests that JavaScript (`!title`) and Python (`not note_id`) apply to request fields.
- `Text` holds JavaScript's `String.prototype.trim` and SQLite's `LIKE` without an `ESCAPE` clause. `LIKE` treats `%` and `_` as wildcards and ignores ASCII case.
- `Ranking` holds a generic filter and a stable sort in descending order. The sort is an insertion sort. It serves both as SQL's `ORDER BY ... DESC` and as Python's `list.sort(reverse=True)`.
- `NoteStore` models the notes table. The `NoteTable` class holds the rows and the `AUTOINCREMENT` counter. Create, update and soft delete are methods on it. List and search are functions of the rows. Each UPDATE and SELECT is a function on the rows, with its own lemmas. The INSERT is stated by the contract of `Create`.
- `SemanticSearch` models the embedding service. The `EmbeddingIndex` class holds the cache (`seq<CacheEntry>`) and the embeddings table (`map<int, Embedding>`). Start-up and the three write routes are methods on it. Ranking is a pipeline of functions.

Five inputs come from outside the model and are parameters:

- the clock reading (`now`);
- the sentence encoder (`encode: string -> Embedding`);
- the similarity of two embeddings (`similarity`);
- the embeddings stored by earlier runs, passed to the `EmbeddingIndex` constructor;
- the rows and the `AUTOINCREMENT` counter of the notes table as an earlier run left them, passed to the `NoteTable` constructor.

Three behaviours of the source are stated as lemmas:

- The literal search does not escape the query. So `_` or `%` in a query is a wildcard (`UnderscoreMatchesAnyText`).
- A blank query is accepted. It lists every active note (`BlankQueryListsAll`).
- Adding an embedding for an id that already has one keeps the older cache entry. The id then has two entries (`AddKeepsEarlierEntries`).

## Model

| member | source | states |
|---|---|---|
| Common.Truthy | server/notes.js:17 | a text field fails validation exactly when it is missing (or null) or empty, as `!title` in JavaScript and `not title` in Python |
| Common.TruthyId | python_service/semantic_search.py:155 | a note id fails Python's truth test exactly when it is missing (or null) or 0 |
| Text.Trim | server/notes.js:94 | the trimmed query is no longer than the query, and neither starts nor ends with whitespace |
| Text.TrimIsSlice | server/notes.js:94 | the trimmed query is a contiguous slice of the query |
| Text.TrimRemovesOnlyWhitespace | server/notes.js:94 | everything trim removes, before and after the slice it keeps, is whitespace |
| Text.TrimOfBlank | server/notes.js:94 | a query made only of whitespace trims to the empty text |
| Text.Like | server/notes.js:100 | a pattern without wildcards matches exactly the texts equal to it up to ASCII case (the wildcard cases are stated by the lemmas below) |
| Text.LikeIsSubstringTest | server/notes.js:100-103 | for a query without wildcards, the pattern `%q%` matches a text exactly when q occurs in it, ignoring ASCII case |
| Text.LikeDoublePercentMatchesAll | server/notes.js:103 | the pattern `%%`, built from an empty trimmed query, matches every text |
| Text.UnderscoreMatchesAnyText | server/notes.js:103 | the query `_` is not escaped: its pattern matches exactly the non-empty texts |
| Ranking.Filter | python_service/semantic_search.py:136 | the kept elements are members of the input that pass the test, and every passing element is kept |
| Ranking.SortDesc | python_service/semantic_search.py:127 | the result is in non-increasing key order and is a permutation of the input |
| Ranking.SortDescIsStable | python_service/semantic_search.py:127 | elements with equal keys keep their input order |
| Ranking.FilterSortDesc | python_service/semantic_search.py:127-136 | filtering after the sort gives the same list as sorting after the filter |
| Ranking.TopOfSorted | python_service/semantic_search.py:140 | a prefix of a sorted list is sorted, and every element left out scores no higher than any element kept |
| NoteStore.Changes | server/notes.js:138 | the number of changed rows is zero exactly when no active row has the id, and at most one while ids are unique |
| NoteStore.UpdateRows | server/notes.js:129-134 | the active row with the id gets the new title, content and updated_at; its id, created_at and deleted_at stay; every other row is unchanged; row count and the active match count are kept |
| NoteStore.SoftDeleteRows | server/notes.js:165-170 | the active row with the id gets deleted_at = now and stays in the table; every other row is unchanged; no active row with the id remains |
| NoteStore.ListActive | server/notes.js:52-57 | the list holds exactly the rows with deleted_at null, with their multiplicities, ordered by created_at descending |
| NoteStore.SearchPattern | server/notes.js:103 | the pattern is the trimmed query between two '%' characters; a blank query gives "%%" |
| NoteStore.MatchesPattern | server/notes.js:100 | the pattern "%%" holds of every note; a pattern `%t%` with a wildcard-free t holds exactly of the notes whose title or content contains t up to ASCII case |
| NoteStore.Search | server/notes.js:83-104 | a missing or empty q is BadRequest; otherwise the answer holds exactly the active rows whose title or content matches `%trim(q)%`, ordered by created_at descending |
| NoteStore.SearchIsSubstringMatch | server/notes.js:94-103 | for a trimmed query without wildcards, search is a case-insensitive substring match on title or content over the active notes |
| NoteStore.SearchFollowsListOrder | server/notes.js:97-102 | the search answer is the list answer with the non-matching notes taken out |
| NoteStore.BlankQueryListsAll | server/notes.js:87-103 | a non-empty query of blanks is accepted and returns the whole list |
| NoteStore.DeletedNoteStaysHidden | server/notes.js:55 | a deleted note's id is in neither the list nor any search answer, and update and delete of that id change no row |
| NoteStore.SoftDeleteHidesNote | server/notes.js:165-170 | after a soft delete, the list is the earlier list without the notes of that id |
| NoteStore.SoftDeleteIdempotent | server/notes.js:165-174 | a second soft delete of the same id changes nothing |
| NoteStore.NoteTable.constructor | server/db.js:11-20 | opening the database file keeps the rows and the AUTOINCREMENT counter an earlier run left, provided they are consistent (ids ascending, positive and not above the counter); a new file gives no rows and counter 0 |
| NoteStore.NoteTable.Create | server/notes.js:13-45 | a missing or empty title or content is BadRequest with no change; otherwise one active row is appended, with a never-used id, the given text and now as both timestamps, and its id is returned; SQLITE_FULL when the rowid space is used up |
| NoteStore.NoteTable.Update | server/notes.js:126-158 | NotFound with no change when no active row has the id; StorageError with no change for a null title or content, since the columns are NOT NULL; otherwise the rows become UpdateRows and the request is echoed back |
| NoteStore.NoteTable.Delete | server/notes.js:163-193 | NotFound with no change when no active row has the id; otherwise the rows become SoftDeleteRows and the answer is Ok |
| NoteStore.NoteTable.List | server/notes.js:50-73 | the route answers with exactly the active rows, each as often as it is in the table, newest first |
| NoteStore.NoteLifecycle | server/notes.js:126-193 | after create, update and delete, the id was freshly assigned; its record is still in the table but deleted; it is no longer listed; the returned answers of a second delete and of a later update are NotFound |
| SemanticSearch.TextToEmbed | python_service/semantic_search.py:31-33 | the text is two characters longer than title and content together; for a title without a colon, the text has a colon followed by a blank right after the title, and splitting there gives back the title and the content (a text whose first colon is not followed by a blank does not split) |
| SemanticSearch.TextToEmbedNotInjective | python_service/semantic_search.py:31-33 | different notes can be embedded from the same text when a title holds ": " |
| SemanticSearch.Scores | python_service/semantic_search.py:126 | one hit per cache entry, in cache order, carrying that entry's note id and the similarity of the query embedding with that entry's embedding |
| SemanticSearch.Qualifying | python_service/semantic_search.py:127-136 | the hits at or above 0.45, in non-increasing similarity order, and no others; exactly the stable sort of the filtered hits, so a hit that occurs twice (two adds of one note) is kept twice |
| SemanticSearch.Rank | python_service/semantic_search.py:127-140 | at most 5 hits, all at or above 0.45, all from the scored hits, ordered; a qualifying hit is left out only when 5 hits that score at least as high fill the answer |
| SemanticSearch.RankIsTopOfQualifyingHits | python_service/semantic_search.py:127-140 | the answer is the first min(5, k) hits of the k qualifying hits sorted stably |
| SemanticSearch.RankKeepsCacheOrderOnTies | python_service/semantic_search.py:127 | hits of the answer that share a score appear in cache order, and they are the first hits of that score in the cache |
| SemanticSearch.SemanticQuery | python_service/semantic_search.py:117-145 | an empty q is BadRequest and the cache is only read; otherwise the answer is Rank of the scores of the whole cache against the encoded query, so at most 5 results, ordered, all at or above the threshold, each with the id of a cache entry |
| SemanticSearch.WithoutId | python_service/semantic_search.py:184 | every entry of the id is dropped and every other entry is kept; the length falls by the number of entries of the id |
| SemanticSearch.WithoutIdAppend | python_service/semantic_search.py:184 | removal works piece by piece, so surviving entries keep their relative order |
| SemanticSearch.WithoutIdIdempotent | python_service/semantic_search.py:166-186 | removing an id twice is removing it once |
| SemanticSearch.UpdateLeavesOneEntry | python_service/semantic_search.py:200-213 | after an update the id has exactly one cache entry, the new one, at the end, and the entries of other ids are as they were |
| SemanticSearch.AddKeepsEarlierEntries | python_service/semantic_search.py:158-162 | after an add the id has one cache entry more than before; earlier ones are not removed |
| SemanticSearch.MissingEmbeddings | python_service/semantic_search.py:92-97 | exactly the active notes with no stored embedding |
| SemanticSearch.MissingEmbeddingsCount | python_service/semantic_search.py:92-106 | with unique note ids, the number of rows the query returns (and so the start-up count) is the number of distinct active notes with no stored embedding |
| SemanticSearch.JoinedEntries | python_service/semantic_search.py:60-69 | one cache entry per note, in order, carrying that note's id and its stored embedding when it has one, else the encoding of its text |
| SemanticSearch.LoadedStoreIsStoredFor | python_service/semantic_search.py:60-69 | after the load, every note has a stored embedding, the earlier one when it had one and its encoding otherwise; nothing stored before is lost and no other id is added |
| SemanticSearch.LoadTwice | python_service/semantic_search.py:101-109 | storing the missing embeddings first and then loading all active notes has the same effect as one load against the original table |
| SemanticSearch.EmbeddingIndex.constructor | python_service/semantic_search.py:83 | the cache starts empty and the table holds what earlier runs stored |
| SemanticSearch.EmbeddingIndex.StoreEmbedding | python_service/semantic_search.py:35-45 | insert or replace: an id that fits SQLite's signed 64-bit integers maps to the new embedding and other ids are untouched; an id outside that range is a StorageError (Python's OverflowError) and the table is unchanged |
| SemanticSearch.EmbeddingIndex.GetNotesWithEmbeddings | python_service/semantic_search.py:47-69 | the answer is one entry per active note in table order, reusing stored embeddings; the table gains the encodings of the notes that had none (the notes are rows of the SQLite table, so their ids fit 64 bits) |
| SemanticSearch.EmbeddingIndex.InitializeEmbeddings | python_service/semantic_search.py:85-110 | count is the number of active notes with no stored embedding; the cache and the table end as one load of the active notes against the table as it was (the notes are rows of the SQLite table, so their ids fit 64 bits) |
| SemanticSearch.EmbeddingIndex.EncodeMissing | python_service/semantic_search.py:99-106 | the start-up loop: every missing note is counted, its encoding stored in the table, and one entry per note appended to the cache in order |
| SemanticSearch.EmbeddingIndex.AddNoteEmbedding | python_service/semantic_search.py:147-164 | a falsy id, title or content is BadRequest with no change; an id that does not fit 64 bits is StorageError with no change; otherwise the table maps the id to the new embedding and one entry is appended to the cache |
| SemanticSearch.EmbeddingIndex.RemoveNoteEmbedding | python_service/semantic_search.py:166-186 | a falsy id is BadRequest with no change; an id that does not fit 64 bits is StorageError with no change; otherwise the id leaves the table and the cache becomes WithoutId of the old cache |
| SemanticSearch.EmbeddingIndex.UpdateNoteEmbedding | python_service/semantic_search.py:189-215 | the same validation as add; an id that does not fit 64 bits is StorageError with the table unchanged but the cache already filtered to WithoutId of the old cache; otherwise the table maps the id to the new embedding, and the cache is the old cache without the id plus the new entry at the end |

## Left out

- HTTP, Express and Flask plumbing: routing, status codes, JSON bodies, messages and logging. Each route returns an `Outcome` tag instead.
- SQLite connections and I/O failures. The only storage errors modelled are three: `SQLITE_FULL` when `AUTOINCREMENT` runs out of rowids, the `NOT NULL` violation in update, and the `OverflowError` Python's sqlite3 raises when it binds a note id outside the signed 64-bit range. List and search therefore never fail in the model.
- `VARCHAR(255)` is not enforced by SQLite, so the model puts no length limit on a title.
- The order of rows with equal `created_at`. SQL leaves it open, while the model keeps table order. `NoteStore.ListActive` and `NoteStore.Search` promise only sortedness and membership, not the tie order.
- Rows from a `SELECT` without `ORDER BY` are taken in table order. This applies to the start-up queries of the embedding service.
- Pickle serialisation of embeddings. The model stores the embedding value itself.
- The sentence-transformers encoder and the numpy cosine similarity, including its zero-norm branch. Both are foreign code and are function parameters.
- Scores are modelled as reals, not as floats: NaN and rounding are not modelled.
- Request fields are strings or absent (`Option<string>`), and note ids are integers or absent (`Option<int>`). Three cases are therefore not modelled:
  - JSON numbers, booleans or objects where a string is expected;
  - a string `note_id` that differs in type from the cached integer id;
  - `request.get_json()` returning `None`.
- A NUL character in a title, content or query. SQLite's LIKE stops reading a text at its first NUL, while `Text.Like` reads the whole text. So the model lets `%b%` match `"a\u0000b"`, where SQLite does not.
- A query parameter `q` that Express parses into an array or object, such as `?q=a&q=b`. It passes the `!q` test, and `q.trim()` then throws outside the `try` block, so the route never answers with a result. The model takes `q` as a string or absent.
- The URL id of update and delete is an integer. SQLite's type conversion of a string id with integer affinity is not modelled.
- The schema of `note_embeddings` is not part of this model. Because `store_embedding` does insert-or-replace, the table is modelled as a map from note id to embedding. So the `NOT IN` subquery with a `NULL` `note_id` and a join that yields several rows per note are not modelled.
- Concurrency: the process-wide cache shared across Flask requests, and the `async`/`await` of the Node handlers. Each request is one sequential operation.
- `server/server.js`, the client React components, and the connection set-up in `server/db.js` are not part of this model.
- The log line that reports `count` at start-up; the count itself is modelled.
