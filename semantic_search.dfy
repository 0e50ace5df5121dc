/** The Flask embedding service. It keeps an in-memory list of (note id,
    embedding) pairs, the cache, beside a table that maps a note id to its
    stored embedding, and answers semantic queries from the cache. The sentence
    encoder and the similarity of two embeddings come in as function
    parameters: the service treats both as black boxes. */
module SemanticSearch {
  import opened Common
  import opened Ranking
  import opened NoteStore

  type Embedding = seq<real>

  /** One `(note_id, embedding)` pair of the in-memory list. */
  datatype CacheEntry = CacheEntry(noteId: int, embedding: Embedding)

  /** One `{note_id, similarity}` entry of a search answer. */
  datatype Hit = Hit(noteId: int, similarity: real)

  /** Hits scoring below this are dropped. */
  const SimilarityThreshold: real := 0.45
  /** At most this many hits are returned. */
  const MaxResults: nat := 5

  /** The text the encoder sees for a note: its title, a colon and a blank,
      then its content. When the title holds no colon, title and content can
      be read back from it. */
  function TextToEmbed(title: string, content: string): (r: string)
    ensures |r| == |title| + 2 + |content|
    ensures ':' !in title ==> SplitEmbedText(r) == (title, content)
  {
    var r := title + ": " + content;
    assert r[|title|] == ':' && r[|title| + 1] == ' ' && r[..|title|] == title && r[|title| + 2..] == content;
    assert ':' !in title ==> FirstColon(r) == |title| by {
      if ':' !in title {
        assert forall k :: 0 <= k < |title| ==> r[k] == title[k];
      }
    }
    r
  }

  /** The position of the first ':' in `s`, or |s| when there is none. */
  function FirstColon(s: string): (i: nat)
    ensures i <= |s|
    ensures i < |s| ==> s[i] == ':'
    ensures forall k :: 0 <= k < i ==> s[k] != ':'
  {
    if s == [] || s[0] == ':' then 0 else 1 + FirstColon(s[1..])
  }

  /** Cuts a text into a title and a content at its first colon, when a
      blank follows that colon; any other text is all title. */
  function SplitEmbedText(s: string): (string, string) {
    var i := FirstColon(s);
    if i + 2 <= |s| && s[i + 1] == ' ' then (s[..i], s[i + 2..]) else (s, "")
  }

  /** With a colon in the title, two different notes are embedded from the
      same text. */
  lemma TextToEmbedNotInjective()
    ensures TextToEmbed("a: b", "c") == TextToEmbed("a", "b: c")
  {
  }

  function Similarity(h: Hit): real {
    h.similarity
  }

  predicate AboveThreshold(h: Hit) {
    h.similarity >= SimilarityThreshold
  }

  /** The ids that have an entry in the cache. */
  function CachedIds(cache: seq<CacheEntry>): set<int> {
    set e | e in cache :: e.noteId
  }

  /** Every cache entry scored against the query embedding: one hit per
      entry, in cache order. */
  function Scores(cache: seq<CacheEntry>, query: Embedding,
                  similarity: (Embedding, Embedding) -> real): (hits: seq<Hit>)
    ensures |hits| == |cache|
    ensures forall i :: 0 <= i < |cache| ==>
              hits[i].noteId == cache[i].noteId && hits[i].similarity == similarity(query, cache[i].embedding)
  {
    seq(|cache|, i requires 0 <= i < |cache| => Hit(cache[i].noteId, similarity(query, cache[i].embedding)))
  }

  /** The hits that pass the threshold, best first: Python's stable sort by
      similarity in descending order, then the threshold test. */
  function Qualifying(hits: seq<Hit>): (q: seq<Hit>)
    ensures SortedDesc(q, Similarity)
    ensures forall h :: h in q <==> h in hits && AboveThreshold(h)
    ensures q == SortDesc(Filter(hits, AboveThreshold), Similarity)
  {
    var ordered := SortDesc(hits, Similarity);
    FilterSortDesc(hits, Similarity, AboveThreshold);
    SortDescMembers(hits, Similarity);
    FilterMembers(ordered, AboveThreshold);
    FilterSorted(ordered, Similarity, AboveThreshold);
    Filter(ordered, AboveThreshold)
  }

  /** Sort by similarity, highest first and stably, drop what scores below the
      threshold, keep the first MaxResults. The answer is short, above the
      threshold, ordered, drawn from the hits, and a qualifying hit is left
      out only when the answer is full of hits that score at least as high. */
  function Rank(hits: seq<Hit>): (r: seq<Hit>)
    ensures |r| <= MaxResults
    ensures forall i :: 0 <= i < |r| ==> AboveThreshold(r[i]) && r[i] in hits
    ensures SortedDesc(r, Similarity)
    ensures forall h :: h in hits && AboveThreshold(h) && h !in r ==>
              |r| == MaxResults && forall i :: 0 <= i < |r| ==> r[i].similarity >= h.similarity
  {
    var q := Qualifying(hits);
    var n := if |q| <= MaxResults then |q| else MaxResults;
    TopOfSorted(q, n, Similarity);
    q[..n]
  }

  /** The same answer comes from keeping the qualifying hits first and sorting
      them after: the answer is the top of the qualifying hits in stable
      order. */
  lemma RankIsTopOfQualifyingHits(hits: seq<Hit>)
    ensures var best := SortDesc(Filter(hits, AboveThreshold), Similarity);
            Rank(hits) == best[..if |best| <= MaxResults then |best| else MaxResults]
  {
  }

  /** The hits that have exactly this score, in their order. */
  function WithScore(hits: seq<Hit>, score: real): seq<Hit> {
    Filter(hits, (h: Hit) => h.similarity == score)
  }

  /** Python's sort is stable: among the hits of an answer that share a score,
      the order is the cache order, and they are the first ones of that score
      in the cache. */
  lemma RankKeepsCacheOrderOnTies(hits: seq<Hit>, score: real)
    ensures WithScore(Rank(hits), score) <= WithScore(hits, score)
  {
    var same := (h: Hit) => Similarity(h) == score;
    var ordered := SortDesc(hits, Similarity);
    var kept := Filter(ordered, AboveThreshold);
    var n := if |kept| <= MaxResults then |kept| else MaxResults;
    assert Rank(hits) == kept[..n];
    SortDescIsStable(hits, Similarity, score, same);
    if score >= SimilarityThreshold {
      FilterTwice(ordered, AboveThreshold, same, same);
      FilterPrefix(kept, n, same);
    } else {
      FilterNone(kept[..n], same);
    }
    FilterSameTest(kept[..n], same, (h: Hit) => h.similarity == score);
    FilterSameTest(hits, same, (h: Hit) => h.similarity == score);
  }

  /** GET /semantic_search. An empty `q` (or none) is a bad request and the
      cache is only read; otherwise the query is encoded, every cache entry is
      scored against it, and the ranked hits are returned. Every id in the
      answer is an id of the cache. */
  function SemanticQuery(q: string, cache: seq<CacheEntry>, encode: string -> Embedding,
                         similarity: (Embedding, Embedding) -> real): (r: Outcome<seq<Hit>>)
    ensures r.BadRequest? <==> q == ""
    ensures r.Ok? || r.BadRequest?
    ensures r.Ok? ==> r.value == Rank(Scores(cache, encode(q), similarity))
    ensures r.Ok? ==>
      && |r.value| <= MaxResults
      && SortedDesc(r.value, Similarity)
      && forall i :: 0 <= i < |r.value| ==> AboveThreshold(r.value[i]) && r.value[i].noteId in CachedIds(cache)
  {
    if q == "" then BadRequest
    else
      var hits := Scores(cache, encode(q), similarity);
      var r := Rank(hits);
      assert forall i :: 0 <= i < |r| ==> r[i].noteId in CachedIds(cache) by {
        forall i | 0 <= i < |r| ensures r[i].noteId in CachedIds(cache) {
          var j :| 0 <= j < |hits| && hits[j] == r[i];
          assert cache[j] in cache;
        }
      }
      Ok(r)
  }

  /** How many cache entries carry the id. */
  function CountId(cache: seq<CacheEntry>, id: int): (c: nat)
    ensures c <= |cache|
  {
    if cache == [] then 0 else (if cache[0].noteId == id then 1 else 0) + CountId(cache[1..], id)
  }

  lemma {:induction false} CountIdAppend(c1: seq<CacheEntry>, c2: seq<CacheEntry>, id: int)
    ensures CountId(c1 + c2, id) == CountId(c1, id) + CountId(c2, id)
  {
    if c1 != [] {
      assert (c1 + c2)[1..] == c1[1..] + c2;
      CountIdAppend(c1[1..], c2, id);
    } else {
      assert c1 + c2 == c2;
    }
  }

  /** The cache without the entries of one id: every entry of the id goes,
      every other entry stays, in order. */
  function WithoutId(cache: seq<CacheEntry>, id: int): (r: seq<CacheEntry>)
    ensures forall i :: 0 <= i < |r| ==> r[i].noteId != id && r[i] in cache
    ensures forall i :: 0 <= i < |cache| && cache[i].noteId != id ==> cache[i] in r
    ensures |r| == |cache| - CountId(cache, id)
    ensures CountId(r, id) == 0
  {
    if cache == [] then []
    else
      var head := if cache[0].noteId == id then [] else [cache[0]];
      var rest := WithoutId(cache[1..], id);
      CountIdAppend(head, rest, id);
      assert [cache[0]][1..] == [];
      head + rest
  }

  /** Taking an id out works piece by piece: the surviving entries keep their
      relative order. */
  lemma {:induction false} WithoutIdAppend(c1: seq<CacheEntry>, c2: seq<CacheEntry>, id: int)
    ensures WithoutId(c1 + c2, id) == WithoutId(c1, id) + WithoutId(c2, id)
  {
    if c1 == [] {
      assert c1 + c2 == c2;
    } else {
      assert (c1 + c2)[0] == c1[0] && (c1 + c2)[1..] == c1[1..] + c2;
      WithoutIdAppend(c1[1..], c2, id);
    }
  }

  /** Removing twice is removing once. */
  lemma {:induction false} WithoutIdIdempotent(cache: seq<CacheEntry>, id: int)
    ensures WithoutId(WithoutId(cache, id), id) == WithoutId(cache, id)
  {
    if cache != [] {
      var head := if cache[0].noteId == id then [] else [cache[0]];
      var rest := WithoutId(cache[1..], id);
      WithoutIdIdempotent(cache[1..], id);
      assert WithoutId(cache, id) == head + rest;
      WithoutIdAppend(head, rest, id);
      assert [cache[0]][1..] == [];
      assert WithoutId(head, id) == head;
    }
  }

  /** The cache after an update: one entry for the id, the new one, at the end;
      the entries of the other ids as they were. */
  lemma UpdateLeavesOneEntry(cache: seq<CacheEntry>, e: CacheEntry)
    ensures var updated := WithoutId(cache, e.noteId) + [e];
            && CountId(updated, e.noteId) == 1
            && updated[|updated| - 1] == e
            && WithoutId(updated, e.noteId) == WithoutId(cache, e.noteId)
  {
    var kept := WithoutId(cache, e.noteId);
    CountIdAppend(kept, [e], e.noteId);
    WithoutIdAppend(kept, [e], e.noteId);
    WithoutIdIdempotent(cache, e.noteId);
    assert WithoutId([e], e.noteId) == [];
    assert kept + [] == kept;
  }

  /** The cache after an add: the earlier entries of the id are still there,
      so the id now has one entry more. */
  lemma AddKeepsEarlierEntries(cache: seq<CacheEntry>, e: CacheEntry)
    ensures CountId(cache + [e], e.noteId) == CountId(cache, e.noteId) + 1
  {
    CountIdAppend(cache, [e], e.noteId);
  }

  /** The active notes in table order. */
  function ActiveNotes(notes: seq<Note>): seq<Note> {
    Filter(notes, Active)
  }

  /** The ids of some notes. */
  function IdsOf(rows: seq<Note>): set<int> {
    set n | n in rows :: n.id
  }


  /** The start-up query: the active notes with no stored embedding, in table
      order. */
  function MissingEmbeddings(notes: seq<Note>, store: map<int, Embedding>): (r: seq<Note>)
    ensures forall n :: n in r <==> n in notes && Active(n) && n.id !in store
  {
    FilterMembers(notes, n => Active(n) && n.id !in store);
    Filter(notes, n => Active(n) && n.id !in store)
  }

  /** With unique ids (the table's primary key), the start-up count is the
      number of active notes without a stored embedding. */
  lemma MissingEmbeddingsCount(notes: seq<Note>, store: map<int, Embedding>)
    requires UniqueIds(notes)
    ensures |MissingEmbeddings(notes, store)| == |set n | n in notes && Active(n) && n.id !in store|
  {
    var r := MissingEmbeddings(notes, store);
    FilterKeepsIdsUnique(notes, n => Active(n) && n.id !in store);
    UniqueRowsCount(r);
    assert (set n | n in r) == (set n | n in notes && Active(n) && n.id !in store);
  }

  /** The embedding a note ends up with: the stored one when there is one,
      else the encoding of its text. */
  function EmbeddingFor(store: map<int, Embedding>, n: Note, encode: string -> Embedding): Embedding {
    if n.id in store then store[n.id] else encode(TextToEmbed(n.title, n.content))
  }

  /** The cache entries a list of notes yields when each is joined with its
      stored embedding, or encoded when it has none. */
  function JoinedEntries(rows: seq<Note>, stored: map<int, Embedding>, encode: string -> Embedding): (r: seq<CacheEntry>)
    ensures |r| == |rows|
    ensures forall k :: 0 <= k < |rows| ==> r[k].noteId == rows[k].id && r[k].embedding == EmbeddingFor(stored, rows[k], encode)
  {
    seq(|rows|, k requires 0 <= k < |rows| => CacheEntry(rows[k].id, EmbeddingFor(stored, rows[k], encode)))
  }

  /** `store` is `before` after the embeddings of `rows` were loaded: every
      row has a stored embedding, the one it had or its encoding; everything
      stored before is kept; no other id was added. */
  ghost predicate StoredFor(store: map<int, Embedding>, before: map<int, Embedding>, rows: seq<Note>,
                            encode: string -> Embedding) {
    && (forall n :: n in rows ==> n.id in store && store[n.id] == EmbeddingFor(before, n, encode))
    && (forall id :: id in before ==> id in store && store[id] == before[id])
    && store.Keys == before.Keys + IdsOf(rows)
  }

  /** The cache entry of one more note follows those of the earlier ones. */
  lemma JoinedEntriesStep(rows: seq<Note>, i: nat, stored: map<int, Embedding>, encode: string -> Embedding)
    requires i < |rows|
    ensures JoinedEntries(rows[..i], stored, encode) + [CacheEntry(rows[i].id, EmbeddingFor(stored, rows[i], encode))]
            == JoinedEntries(rows[..i + 1], stored, encode)
  {
  }

  /** The table after the notes were loaded one by one, each checked against
      the table as it was read (`before`): a note with nothing stored gets its
      encoding stored, a note with a stored embedding leaves the table alone. */
  ghost function LoadedStore(before: map<int, Embedding>, rows: seq<Note>, encode: string -> Embedding): map<int, Embedding>
  {
    if rows == [] then before
    else
      var n := rows[|rows| - 1];
      var m := LoadedStore(before, rows[..|rows| - 1], encode);
      if n.id in before then m else m[n.id := encode(TextToEmbed(n.title, n.content))]
  }

  /** Loading one more note is one more step of LoadedStore. */
  lemma LoadedStoreStep(before: map<int, Embedding>, rows: seq<Note>, i: nat, encode: string -> Embedding)
    requires i < |rows|
    ensures var n := rows[i];
            var m := LoadedStore(before, rows[..i], encode);
            LoadedStore(before, rows[..i + 1], encode)
              == if n.id in before then m else m[n.id := encode(TextToEmbed(n.title, n.content))]
  {
    assert rows[..i + 1][..i] == rows[..i];
  }

  /** Loading notes with distinct ids gives every one of them a stored
      embedding, the one it had or its encoding; keeps everything stored
      before; and adds no other id. */
  lemma {:induction false} LoadedStoreIsStoredFor(before: map<int, Embedding>, rows: seq<Note>, encode: string -> Embedding)
    requires UniqueIds(rows)
    ensures StoredFor(LoadedStore(before, rows, encode), before, rows, encode)
  {
    if rows != [] {
      var k := |rows| - 1;
      var done := rows[..k];
      assert UniqueIds(done) by {
        forall i, j | 0 <= i < j < |done| ensures done[i].id != done[j].id {
          assert done[i] == rows[i] && done[j] == rows[j];
        }
      }
      assert forall x :: x in done ==> x.id != rows[k].id by {
        forall x | x in done ensures x.id != rows[k].id {
          var j :| 0 <= j < k && done[j] == x;
          assert rows[j] == x;
        }
      }
      LoadedStoreIsStoredFor(before, done, encode);
      assert rows == done + [rows[k]];
      StoredForStep(LoadedStore(before, done, encode), before, done, rows[k], encode);
    }
  }

  /** One step of the load: a note whose id no earlier note has gets its
      stored embedding or, when it has none, its encoding. */
  lemma StoredForStep(m: map<int, Embedding>, before: map<int, Embedding>, done: seq<Note>, n: Note,
                      encode: string -> Embedding)
    requires StoredFor(m, before, done, encode)
    requires forall x :: x in done ==> x.id != n.id
    ensures var next := if n.id in before then m else m[n.id := encode(TextToEmbed(n.title, n.content))];
            StoredFor(next, before, done + [n], encode)
  {
    var next := if n.id in before then m else m[n.id := encode(TextToEmbed(n.title, n.content))];
    forall x | x in done + [n] ensures x.id in next && next[x.id] == EmbeddingFor(before, x, encode) {
      if x != n {
        assert x in done;
      }
    }
    assert IdsOf(done + [n]) == IdsOf(done) + {n.id};
  }

  /** StoredFor pins the table down: two tables loaded from the same table
      with the same notes are the same. */
  lemma StoredForDetermines(a: map<int, Embedding>, b: map<int, Embedding>, before: map<int, Embedding>,
                            rows: seq<Note>, encode: string -> Embedding)
    requires StoredFor(a, before, rows, encode) && StoredFor(b, before, rows, encode)
    ensures a == b
  {
    forall id | id in a ensures a[id] == b[id] {
      if id !in before {
        var n :| n in rows && n.id == id;
      }
    }
  }

  /** Loading a first batch of notes and then a second that contains the
      first amounts to loading the second against the original table; the
      cache entries of the second batch are the same either way. */
  lemma StoredForTwice(before: map<int, Embedding>, mid: map<int, Embedding>, after: map<int, Embedding>,
                       first: seq<Note>, rows: seq<Note>, encode: string -> Embedding)
    requires StoredFor(mid, before, first, encode) && StoredFor(after, mid, rows, encode)
    requires forall m :: m in first ==> m in rows
    requires forall n :: n in rows && n.id !in before ==> n in first
    ensures StoredFor(after, before, rows, encode)
    ensures JoinedEntries(rows, mid, encode) == JoinedEntries(rows, before, encode)
  {
    forall n | n in rows ensures EmbeddingFor(mid, n, encode) == EmbeddingFor(before, n, encode) {
    }
    assert IdsOf(first) <= IdsOf(rows);
  }

  /** Start-up loads twice: first the notes with nothing stored, then all
      active notes against the table the first load left. The result is one
      load of the active notes against the original table. */
  lemma LoadTwice(before: map<int, Embedding>, missing: seq<Note>, rows: seq<Note>, notes: seq<Note>,
                  encode: string -> Embedding)
    requires UniqueIds(notes)
    requires missing == MissingEmbeddings(notes, before) && rows == ActiveNotes(notes)
    ensures var mid := LoadedStore(before, missing, encode);
            && LoadedStore(mid, rows, encode) == LoadedStore(before, rows, encode)
            && JoinedEntries(rows, mid, encode) == JoinedEntries(rows, before, encode)
  {
    FilterKeepsIdsUnique(notes, n => Active(n) && n.id !in before);
    FilterKeepsIdsUnique(notes, Active);
    FilterMembers(notes, Active);
    var mid := LoadedStore(before, missing, encode);
    LoadedStoreIsStoredFor(before, missing, encode);
    LoadedStoreIsStoredFor(mid, rows, encode);
    LoadedStoreIsStoredFor(before, rows, encode);
    StoredForTwice(before, mid, LoadedStore(mid, rows, encode), missing, rows, encode);
    StoredForDetermines(LoadedStore(mid, rows, encode), LoadedStore(before, rows, encode), before, rows, encode);
  }

  /** The service's state: the process-wide `note_embeddings` list and the
      `note_embeddings` table. */
  class EmbeddingIndex {
    var cache: seq<CacheEntry>
    var store: map<int, Embedding>

    /** At start-up the list is empty and the table holds what earlier runs
        stored. */
    constructor (stored: map<int, Embedding>)
      ensures cache == [] && store == stored
    {
      cache := [];
      store := stored;
    }

    /** Insert-or-replace into the embeddings table: the id now maps to the new
        embedding, whatever it mapped to before. An id that does not fit in 64
        bits cannot be bound, and the table stays as it was. */
    method StoreEmbedding(noteId: int, emb: Embedding) returns (r: Outcome<()>)
      modifies this`store
      ensures FitsInt64(noteId) ==> r == Ok(()) && store == old(store)[noteId := emb]
      ensures !FitsInt64(noteId) ==> r == StorageError && store == old(store)
    {
      if !FitsInt64(noteId) {
        return StorageError;
      }
      store := store[noteId := emb];
      r := Ok(());
    }

    /** Loads the active notes with their stored embeddings, encoding and
        storing the ones that have none. The answer holds one entry per active
        note in table order, and stored embeddings are reused. The notes are rows
        of the SQLite table, so their ids fit in 64 bits. */
    method GetNotesWithEmbeddings(notes: seq<Note>, encode: string -> Embedding)
      returns (entries: seq<CacheEntry>)
      requires forall n :: n in notes ==> FitsInt64(n.id)
      modifies this`store
      ensures entries == JoinedEntries(ActiveNotes(notes), old(store), encode)
      ensures store == LoadedStore(old(store), ActiveNotes(notes), encode)
    {
      var rows := ActiveNotes(notes);
      assert forall k :: 0 <= k < |rows| ==> FitsInt64(rows[k].id) by {
        forall k | 0 <= k < |rows| ensures FitsInt64(rows[k].id) {
          assert rows[k] in notes;
        }
      }
      var joined := store;
      entries := [];
      var i := 0;
      while i < |rows|
        invariant 0 <= i <= |rows|
        invariant entries == JoinedEntries(rows[..i], joined, encode)
        invariant store == LoadedStore(joined, rows[..i], encode)
      {
        var n := rows[i];
        var text := TextToEmbed(n.title, n.content);
        JoinedEntriesStep(rows, i, joined, encode);
        LoadedStoreStep(joined, rows, i, encode);
        var emb;
        if n.id in joined {
          emb := joined[n.id];
        } else {
          emb := encode(text);
          var stored := StoreEmbedding(n.id, emb);
        }
        entries := entries + [CacheEntry(n.id, emb)];
        i := i + 1;
      }
      assert rows[..i] == rows;
    }

    /** The first loop of start-up: each note in turn is encoded, its embedding
        stored and appended to the cache, and counted. */
    method EncodeMissing(missing: seq<Note>, encode: string -> Embedding) returns (count: nat)
      requires forall k :: 0 <= k < |missing| ==> missing[k].id !in store && FitsInt64(missing[k].id)
      modifies this
      ensures count == |missing|
      ensures cache == old(cache) + JoinedEntries(missing, old(store), encode)
      ensures store == LoadedStore(old(store), missing, encode)
    {
      ghost var before := store;
      count := 0;
      ghost var loaded: seq<CacheEntry> := [];
      var i := 0;
      while i < |missing|
        invariant 0 <= i <= |missing| && count == i
        invariant loaded == JoinedEntries(missing[..i], before, encode)
        invariant cache == old(cache) + loaded
        invariant store == LoadedStore(before, missing[..i], encode)
      {
        var n := missing[i];
        assert n.id !in before;
        JoinedEntriesStep(missing, i, before, encode);
        LoadedStoreStep(before, missing, i, encode);
        var emb := encode(TextToEmbed(n.title, n.content));
        var stored := StoreEmbedding(n.id, emb);
        cache := cache + [CacheEntry(n.id, emb)];
        loaded := loaded + [CacheEntry(n.id, emb)];
        count := count + 1;
        i := i + 1;
      }
      assert missing[..i] == missing;
    }

    /** Start-up: encode and store the active notes that have no stored
        embedding, counting them, then load the cache afresh. The cache and the
        table end up as one load of the active notes against the table as it
        was, which LoadedStoreIsStoredFor characterises. */
    method InitializeEmbeddings(notes: seq<Note>, encode: string -> Embedding) returns (count: nat)
      requires UniqueIds(notes)
      requires forall n :: n in notes ==> FitsInt64(n.id)
      modifies this
      ensures count == |MissingEmbeddings(notes, old(store))|
      ensures cache == JoinedEntries(ActiveNotes(notes), old(store), encode)
      ensures store == LoadedStore(old(store), ActiveNotes(notes), encode)
    {
      var missing := MissingEmbeddings(notes, store);
      ghost var before := store;
      assert forall k :: 0 <= k < |missing| ==> missing[k].id !in store && FitsInt64(missing[k].id) by {
        forall k | 0 <= k < |missing| ensures missing[k].id !in store && FitsInt64(missing[k].id) {
          assert missing[k] in missing;
        }
      }
      count := EncodeMissing(missing, encode);
      cache := GetNotesWithEmbeddings(notes, encode);
      LoadTwice(before, missing, ActiveNotes(notes), notes, encode);
    }

    /** POST /add_note_embedding. A falsy id, title or content is a bad request
        and changes nothing. Otherwise the new embedding is stored and one entry
        is appended to the cache, the older entries of the id staying; an id
        that does not fit in 64 bits fails in the store and changes nothing. */
    method AddNoteEmbedding(noteId: Option<int>, title: Option<string>, content: Option<string>,
                            encode: string -> Embedding) returns (r: Outcome<()>)
      modifies this
      ensures !(TruthyId(noteId) && Truthy(title) && Truthy(content)) ==>
        r == BadRequest && cache == old(cache) && store == old(store)
      ensures TruthyId(noteId) && Truthy(title) && Truthy(content) && !FitsInt64(noteId.value) ==>
        r == StorageError && cache == old(cache) && store == old(store)
      ensures TruthyId(noteId) && Truthy(title) && Truthy(content) && FitsInt64(noteId.value) ==>
        var emb := encode(TextToEmbed(title.value, content.value));
        && r == Ok(())
        && store == old(store)[noteId.value := emb]
        && cache == old(cache) + [CacheEntry(noteId.value, emb)]
    {
      if !(TruthyId(noteId) && Truthy(title) && Truthy(content)) {
        return BadRequest;
      }
      var emb := encode(TextToEmbed(title.value, content.value));
      r := StoreEmbedding(noteId.value, emb);
      if r.Ok? {
        cache := cache + [CacheEntry(noteId.value, emb)];
      }
    }

    /** POST /remove_note_embedding. A falsy id is a bad request; an id that does
        not fit in 64 bits fails in the delete statement; otherwise the stored
        embedding and every cache entry of the id are dropped. */
    method RemoveNoteEmbedding(noteId: Option<int>) returns (r: Outcome<()>)
      modifies this
      ensures !TruthyId(noteId) ==> r == BadRequest && cache == old(cache) && store == old(store)
      ensures TruthyId(noteId) && !FitsInt64(noteId.value) ==>
        r == StorageError && cache == old(cache) && store == old(store)
      ensures TruthyId(noteId) && FitsInt64(noteId.value) ==>
        && r == Ok(())
        && store == old(store) - {noteId.value}
        && cache == WithoutId(old(cache), noteId.value)
    {
      if !TruthyId(noteId) {
        return BadRequest;
      }
      if !FitsInt64(noteId.value) {
        return StorageError;
      }
      store := store - {noteId.value};
      cache := WithoutId(cache, noteId.value);
      r := Ok(());
    }

    /** POST /update_note_embedding. The same validation as add; then every
        cache entry of the id is dropped. An id that does not fit in 64 bits
        fails in the delete statement that follows, leaving the table as it
        was and the cache without the id. Otherwise the stored embedding is
        replaced by the new one, which is also appended to the cache. */
    method UpdateNoteEmbedding(noteId: Option<int>, title: Option<string>, content: Option<string>,
                               encode: string -> Embedding) returns (r: Outcome<()>)
      modifies this
      ensures !(TruthyId(noteId) && Truthy(title) && Truthy(content)) ==>
        r == BadRequest && cache == old(cache) && store == old(store)
      ensures TruthyId(noteId) && Truthy(title) && Truthy(content) && !FitsInt64(noteId.value) ==>
        r == StorageError && cache == WithoutId(old(cache), noteId.value) && store == old(store)
      ensures TruthyId(noteId) && Truthy(title) && Truthy(content) && FitsInt64(noteId.value) ==>
        var emb := encode(TextToEmbed(title.value, content.value));
        && r == Ok(())
        && store == old(store)[noteId.value := emb]
        && cache == WithoutId(old(cache), noteId.value) + [CacheEntry(noteId.value, emb)]
    {
      if !(TruthyId(noteId) && Truthy(title) && Truthy(content)) {
        return BadRequest;
      }
      cache := WithoutId(cache, noteId.value);
      if !FitsInt64(noteId.value) {
        return StorageError;
      }
      store := store - {noteId.value};
      var emb := encode(TextToEmbed(title.value, content.value));
      r := StoreEmbedding(noteId.value, emb);
      cache := cache + [CacheEntry(noteId.value, emb)];
    }
  }
}
