/** The notes table of the Express server and the five route handlers over it.
    Each SQL statement a handler issues is a function on the rows; the handlers
    that write (create, update, soft delete) are methods of NoteTable, which
    holds the rows and the AUTOINCREMENT counter. The clock reading that
    strftime('%s','now') takes is the parameter `now`. */
module NoteStore {
  import opened Common
  import opened Text
  import opened Ranking

  /** One row of the notes table. Timestamps are seconds since the epoch;
      `deletedAt` is None while the note is active. */
  datatype Note = Note(id: int, title: string, content: string,
                       createdAt: int, updatedAt: int, deletedAt: Option<int>)

  /** What the update handler echoes back on success: the id of the route and
      the title and content of the request body. */
  datatype NoteEcho = NoteEcho(id: int, title: string, content: string)

  /** The largest rowid SQLite assigns; past it an AUTOINCREMENT insert fails
      with SQLITE_FULL. */
  const MaxRowId: int := MaxInt64

  /** `deleted_at IS NULL`: the test every read and every write applies. */
  predicate Active(n: Note) {
    n.deletedAt.None?
  }

  /** The sort key of `ORDER BY created_at DESC`. */
  function CreatedAt(n: Note): real {
    n.createdAt as real
  }

  ghost predicate UniqueIds(rows: seq<Note>) {
    forall i, j :: 0 <= i < j < |rows| ==> rows[i].id != rows[j].id
  }

  /** The rows the update and delete statements select: the id matches and
      the row is not deleted. */
  predicate Targeted(n: Note, id: int) {
    n.id == id && Active(n)
  }

  /** `result.changes`: the number of rows an UPDATE with that WHERE clause
      touches. It is zero exactly when no active row has the id, and never more
      than one while ids are unique. */
  function Changes(rows: seq<Note>, id: int): (c: nat)
    ensures c == 0 <==> forall i :: 0 <= i < |rows| ==> !Targeted(rows[i], id)
    ensures UniqueIds(rows) ==> c <= 1
  {
    if rows == [] then 0
    else
      assert forall i :: 1 <= i < |rows| ==> rows[i] == rows[1..][i - 1];
      (if Targeted(rows[0], id) then 1 else 0) + Changes(rows[1..], id)
  }

  /** How one row comes out of that UPDATE: a targeted row takes the new
      title, content and update time, any other row is left as it was, and no
      row changes its id, creation time or lifecycle. */
  predicate UpdatedRow(before: Note, after: Note, id: int, title: string, content: string, now: int) {
    && after.id == before.id && after.createdAt == before.createdAt
    && after.deletedAt == before.deletedAt
    && (Targeted(before, id) ==> after.title == title && after.content == content && after.updatedAt == now)
    && (!Targeted(before, id) ==> after == before)
  }

  /** The update statement of the PUT handler, once the NOT NULL checks
      passed: it sets title, content and the update time on the rows with the
      id that are not deleted.
      Only the targeted row changes, and only in title, content and updated_at:
      its id, its creation time and its lifecycle stay, so the statement leaves
      the note as visible as it was. */
  function UpdateRows(rows: seq<Note>, id: int, title: string, content: string, now: int): (r: seq<Note>)
    ensures |r| == |rows|
    ensures forall i :: 0 <= i < |rows| ==> UpdatedRow(rows[i], r[i], id, title, content, now)
    ensures Changes(r, id) == Changes(rows, id)
  {
    if rows == [] then []
    else
      var n := rows[0];
      var rest := UpdateRows(rows[1..], id, title, content, now);
      var r := [if Targeted(n, id) then n.(title := title, content := content, updatedAt := now) else n] + rest;
      assert forall i :: 0 <= i < |rows| ==> UpdatedRow(rows[i], r[i], id, title, content, now) by {
        forall i | 1 <= i < |rows| ensures UpdatedRow(rows[i], r[i], id, title, content, now) {
          assert r[i] == rest[i - 1] && rows[i] == rows[1..][i - 1];
        }
      }
      ChangesSameTargets(r, rows, id);
      r
  }

  /** Two tables whose rows are targeted alike report the same changes. */
  lemma {:induction false} ChangesSameTargets(a: seq<Note>, b: seq<Note>, id: int)
    requires |a| == |b| && forall i :: 0 <= i < |a| ==> Targeted(a[i], id) == Targeted(b[i], id)
    ensures Changes(a, id) == Changes(b, id)
  {
    if a != [] {
      assert forall i :: 0 <= i < |a| - 1 ==> a[1..][i] == a[i + 1] && b[1..][i] == b[i + 1];
      ChangesSameTargets(a[1..], b[1..], id);
    }
  }

  /** How one row comes out of the soft delete: a targeted row gets the
      deletion time, any other row is left as it was. */
  predicate DeletedRow(before: Note, after: Note, id: int, now: int) {
    && after.id == before.id
    && (Targeted(before, id) ==> after == before.(deletedAt := Some(now)))
    && (!Targeted(before, id) ==> after == before)
  }

  /** The soft-delete statement: it sets the deletion time on the rows with
      the id that are not deleted yet.
      The record stays in the table; afterwards no active row has the id, so a
      second delete or an update finds nothing; every other row, and a row that
      was already deleted, is left as it was. */
  function SoftDeleteRows(rows: seq<Note>, id: int, now: int): (r: seq<Note>)
    ensures |r| == |rows|
    ensures forall i :: 0 <= i < |rows| ==> DeletedRow(rows[i], r[i], id, now)
    ensures Changes(r, id) == 0
  {
    if rows == [] then []
    else
      var n := rows[0];
      var rest := SoftDeleteRows(rows[1..], id, now);
      var r := [if Targeted(n, id) then n.(deletedAt := Some(now)) else n] + rest;
      assert forall i :: 0 <= i < |rows| ==> DeletedRow(rows[i], r[i], id, now) && !Targeted(r[i], id) by {
        forall i | 1 <= i < |rows| ensures DeletedRow(rows[i], r[i], id, now) && !Targeted(r[i], id) {
          assert r[i] == rest[i - 1] && rows[i] == rows[1..][i - 1];
        }
      }
      r
  }

  /** The list query, over the rows not deleted, newest creation first: every
      active row once, no deleted row, newest first. SQL leaves the order of
      rows created in the same second open; this model keeps them in table
      order. */
  function ListActive(rows: seq<Note>): (r: seq<Note>)
    ensures forall n :: n in r <==> n in rows && Active(n)
    ensures multiset(r) == multiset(Filter(rows, Active))
    ensures SortedDesc(r, CreatedAt)
  {
    FilterMembers(rows, Active);
    SortDescMembers(Filter(rows, Active), CreatedAt);
    SortDesc(Filter(rows, Active), CreatedAt)
  }

  /** The LIKE pattern the search handler builds: the trimmed query between two
      '%'. The query is not escaped, so a '%' or '_' in it is a wildcard. */
  function SearchPattern(q: string): (p: string)
    ensures |p| == |Trim(q)| + 2 && p[0] == '%' && p[|p| - 1] == '%' && p[1..|p| - 1] == Trim(q)
    ensures AllWhitespace(q) ==> p == "%%"
  {
    if AllWhitespace(q) then TrimOfBlank(q); "%" + Trim(q) + "%"
    else "%" + Trim(q) + "%"
  }

  /** The search condition: title or content matches the one pattern. The
      pattern "%%" of a blank query holds of every note; a pattern `%t%` whose
      inner text t has no wildcard holds of a note exactly when t occurs in
      its title or its content, up to ASCII case. */
  function MatchesPattern(n: Note, pattern: string): (b: bool)
    ensures pattern == "%%" ==> b
    ensures |pattern| >= 2 && pattern[0] == '%' && pattern[|pattern| - 1] == '%'
            && !HasWildcard(pattern[1..|pattern| - 1]) ==>
      (b <==> ContainsIgnoreCase(n.title, pattern[1..|pattern| - 1])
              || ContainsIgnoreCase(n.content, pattern[1..|pattern| - 1]))
  {
    LikeDoublePercentMatchesAll(n.title);
    if |pattern| >= 2 && pattern[0] == '%' && pattern[|pattern| - 1] == '%'
       && !HasWildcard(pattern[1..|pattern| - 1]) then
      var t := pattern[1..|pattern| - 1];
      assert pattern == "%" + t + "%";
      LikeIsSubstringTest(t, n.title);
      LikeIsSubstringTest(t, n.content);
      Like(pattern, n.title) || Like(pattern, n.content)
    else
      Like(pattern, n.title) || Like(pattern, n.content)
  }

  /** GET /search. A missing or empty `q` is a bad request; any other query,
      blank ones included, selects the active rows whose title or content
      matches the pattern, newest first. */
  function Search(rows: seq<Note>, q: Option<string>): (r: Outcome<seq<Note>>)
    ensures r.BadRequest? <==> !Truthy(q)
    ensures r.Ok? || r.BadRequest?
    ensures r.Ok? ==>
      && (forall n :: n in r.value <==> n in rows && Active(n) && MatchesPattern(n, SearchPattern(q.value)))
      && SortedDesc(r.value, CreatedAt)
  {
    if !Truthy(q) then BadRequest
    else
      var pattern := SearchPattern(q.value);
      var selected := Filter(rows, n => Active(n) && MatchesPattern(n, pattern));
      FilterMembers(rows, n => Active(n) && MatchesPattern(n, pattern));
      SortDescMembers(selected, CreatedAt);
      Ok(SortDesc(selected, CreatedAt))
  }

  /** For a query whose trimmed text holds no wildcard, search is a
      case-insensitive substring test on title or content over the active
      notes. */
  lemma SearchIsSubstringMatch(rows: seq<Note>, q: Option<string>)
    requires Truthy(q) && !HasWildcard(Trim(q.value))
    ensures Search(rows, q).Ok?
    ensures forall n :: n in Search(rows, q).value <==>
      && n in rows && Active(n)
      && (ContainsIgnoreCase(n.title, Trim(q.value)) || ContainsIgnoreCase(n.content, Trim(q.value)))
  {
    var p := SearchPattern(q.value);
    assert p[1..|p| - 1] == Trim(q.value);
  }

  /** Search lists its matches in the order the list handler shows them: it is
      the list with the non-matching notes taken out. */
  lemma {:induction false} SearchFollowsListOrder(rows: seq<Note>, q: Option<string>)
    requires Truthy(q)
    ensures Search(rows, q) == Ok(Filter(ListActive(rows), n => MatchesPattern(n, SearchPattern(q.value))))
  {
    var pattern := SearchPattern(q.value);
    var matches := n => MatchesPattern(n, pattern);
    var both := n => Active(n) && MatchesPattern(n, pattern);
    FilterSortDesc(Filter(rows, Active), CreatedAt, matches);
    FilterTwice(rows, Active, matches, both);
  }

  /** A query of blanks is accepted, trims to "", and the pattern "%%" lists
      every active note. */
  lemma {:induction false} BlankQueryListsAll(rows: seq<Note>, q: Option<string>)
    requires q.Some? && q.value != "" && AllWhitespace(q.value)
    ensures Search(rows, q) == Ok(ListActive(rows))
  {
    var pattern := SearchPattern(q.value);
    FilterSameTest(rows, n => Active(n) && MatchesPattern(n, pattern), Active);
  }

  /** A deleted note is gone for good: no read lists it, no active row shares
      its id, so update and delete of that id report NotFound. */
  lemma {:induction false} DeletedNoteStaysHidden(rows: seq<Note>, i: nat, q: Option<string>)
    requires UniqueIds(rows) && i < |rows| && !Active(rows[i])
    ensures forall n :: n in ListActive(rows) ==> n.id != rows[i].id
    ensures Search(rows, q).Ok? ==> forall n :: n in Search(rows, q).value ==> n.id != rows[i].id
    ensures Changes(rows, rows[i].id) == 0
  {
  }

  /** Soft-deleting takes exactly the notes with that id out of the list;
      every other listed note stays listed. */
  lemma {:induction false} SoftDeleteHidesNote(rows: seq<Note>, id: int, now: int)
    ensures forall n :: n in ListActive(SoftDeleteRows(rows, id, now)) <==> n in ListActive(rows) && n.id != id
  {
    var r := SoftDeleteRows(rows, id, now);
    forall n | n in r && Active(n) ensures n in rows && n.id != id {
      var j :| 0 <= j < |r| && r[j] == n;
      assert !Targeted(rows[j], id) && rows[j] == n;
    }
    forall n | n in rows && Active(n) && n.id != id ensures n in r {
      var j :| 0 <= j < |rows| && rows[j] == n;
      assert r[j] == n;
    }
  }

  /** Deleting again changes nothing: the soft delete is idempotent in its
      effect, though the second call reports NotFound. */
  lemma {:induction false} SoftDeleteIdempotent(rows: seq<Note>, id: int, t1: int, t2: int)
    ensures SoftDeleteRows(SoftDeleteRows(rows, id, t1), id, t2) == SoftDeleteRows(rows, id, t1)
  {
    var r := SoftDeleteRows(rows, id, t1);
    assert forall i :: 0 <= i < |r| ==> !Targeted(r[i], id);
  }

  /** Rows with unique ids are distinct, so there are as many of them as
      there are rows. */
  lemma {:induction false} UniqueRowsCount(rows: seq<Note>)
    requires UniqueIds(rows)
    ensures |set n | n in rows| == |rows|
  {
    if rows != [] {
      var tail := rows[1..];
      assert UniqueIds(tail) by {
        forall i, j | 0 <= i < j < |tail| ensures tail[i].id != tail[j].id {
          assert tail[i] == rows[i + 1] && tail[j] == rows[j + 1];
        }
      }
      UniqueRowsCount(tail);
      assert rows[0] !in tail by {
        forall k | 0 <= k < |tail| ensures tail[k] != rows[0] {
          assert tail[k] == rows[k + 1];
        }
      }
      assert (set n | n in rows) == {rows[0]} + (set n | n in tail) by {
        assert rows == [rows[0]] + tail;
      }
    }
  }

  /** Any selection of rows, such as a SELECT with a WHERE clause, keeps the
      ids unique. */
  lemma {:induction false} FilterKeepsIdsUnique(rows: seq<Note>, p: Note -> bool)
    requires UniqueIds(rows)
    ensures UniqueIds(Filter(rows, p))
  {
    if rows != [] {
      var tail := rows[1..];
      assert UniqueIds(tail) by {
        forall i, j | 0 <= i < j < |tail| ensures tail[i].id != tail[j].id {
          assert tail[i] == rows[i + 1] && tail[j] == rows[j + 1];
        }
      }
      FilterKeepsIdsUnique(tail, p);
      var rest := Filter(tail, p);
      if p(rows[0]) {
        var r := [rows[0]] + rest;
        forall i, j | 0 <= i < j < |r| ensures r[i].id != r[j].id {
          if i == 0 {
            assert r[j] == rest[j - 1];
            var k :| 0 <= k < |tail| && tail[k] == rest[j - 1];
            assert tail[k] == rows[k + 1];
          } else {
            assert r[i] == rest[i - 1] && r[j] == rest[j - 1];
          }
        }
      }
    }
  }

  /** The notes table with its sqlite_sequence entry. Rows are kept in rowid
      order and are never physically removed. */
  class NoteTable {
    var rows: seq<Note>
    /** The largest id AUTOINCREMENT has handed out. */
    var lastId: int

    ghost predicate Valid()
      reads this
    {
      && 0 <= lastId <= MaxRowId
      && (forall i, j :: 0 <= i < j < |rows| ==> rows[i].id < rows[j].id)
      && (forall i :: 0 <= i < |rows| ==> 1 <= rows[i].id <= lastId)
    }

    /** Opening the database file: the table keeps the rows and the
        AUTOINCREMENT counter an earlier run left (none and 0 on a new file). */
    constructor (rows0: seq<Note>, lastId0: int)
      requires 0 <= lastId0 <= MaxRowId
      requires forall i, j :: 0 <= i < j < |rows0| ==> rows0[i].id < rows0[j].id
      requires forall i :: 0 <= i < |rows0| ==> 1 <= rows0[i].id <= lastId0
      ensures Valid() && rows == rows0 && lastId == lastId0
    {
      rows := rows0;
      lastId := lastId0;
    }

    /** POST /. A missing or empty title or content is a bad request and
        leaves the table alone; otherwise one active note is inserted with a
        fresh id and the clock reading as both timestamps, and its id is
        returned. */
    method Create(title: Option<string>, content: Option<string>, now: int) returns (r: Outcome<int>)
      requires Valid()
      modifies this
      ensures Valid()
      ensures !(Truthy(title) && Truthy(content)) ==>
        r == BadRequest && rows == old(rows) && lastId == old(lastId)
      ensures Truthy(title) && Truthy(content) && old(lastId) == MaxRowId ==>
        r == StorageError && rows == old(rows) && lastId == old(lastId)
      ensures Truthy(title) && Truthy(content) && old(lastId) < MaxRowId ==>
        && r == Ok(old(lastId) + 1) && lastId == r.value
        && rows == old(rows) + [Note(r.value, title.value, content.value, now, now, None)]
        && forall i :: 0 <= i < |old(rows)| ==> old(rows)[i].id < r.value
    {
      if !(Truthy(title) && Truthy(content)) {
        return BadRequest;
      }
      if lastId == MaxRowId {
        return StorageError;
      }
      lastId := lastId + 1;
      rows := rows + [Note(lastId, title.value, content.value, now, now, None)];
      r := Ok(lastId);
    }

    /** PUT /:id. No validation: when no active note has the id the answer is
        NotFound; when one has, a null title or content breaks a NOT NULL
        constraint and nothing changes; otherwise title, content and updated_at
        are overwritten. */
    method Update(id: int, title: Option<string>, content: Option<string>, now: int)
      returns (r: Outcome<NoteEcho>)
      requires Valid()
      modifies this`rows
      ensures Valid()
      ensures Changes(old(rows), id) == 0 ==> r == NotFound && rows == old(rows)
      ensures Changes(old(rows), id) > 0 && (title.None? || content.None?) ==>
        r == StorageError && rows == old(rows)
      ensures Changes(old(rows), id) > 0 && title.Some? && content.Some? ==>
        && r == Ok(NoteEcho(id, title.value, content.value))
        && rows == UpdateRows(old(rows), id, title.value, content.value, now)
    {
      if Changes(rows, id) == 0 {
        return NotFound;
      }
      if title.None? || content.None? {
        return StorageError;
      }
      rows := UpdateRows(rows, id, title.value, content.value, now);
      r := Ok(NoteEcho(id, title.value, content.value));
    }

    /** DELETE /:id. Stamps deleted_at on the active note with the id and keeps
        the record; NotFound when no active note has the id. */
    method Delete(id: int, now: int) returns (r: Outcome<()>)
      requires Valid()
      modifies this`rows
      ensures Valid()
      ensures Changes(old(rows), id) == 0 ==> r == NotFound && rows == old(rows)
      ensures Changes(old(rows), id) > 0 ==> r == Ok(()) && rows == SoftDeleteRows(old(rows), id, now)
    {
      var changes := Changes(rows, id);
      rows := SoftDeleteRows(rows, id, now);
      if changes > 0 {
        r := Ok(());
      } else {
        assert rows == old(rows);
        r := NotFound;
      }
    }

    /** GET /: the list handler reads the current rows. */
    function List(): (r: seq<Note>)
      reads this
      requires Valid()
      ensures forall n :: n in r <==> n in rows && Active(n)
      ensures multiset(r) == multiset(Filter(rows, Active))
      ensures SortedDesc(r, CreatedAt)
    {
      ListActive(rows)
    }
  }

  /** The lifecycle of one note through the handlers: created, listed, updated,
      deleted; afterwards update and a second delete report NotFound and the
      note is no longer listed. */
  method NoteLifecycle(table: NoteTable, t0: int, t1: int, t2: int)
    returns (id: int, again: Outcome<()>, late: Outcome<NoteEcho>)
    requires table.Valid() && table.lastId < MaxRowId
    modifies table
    ensures table.Valid() && id == old(table.lastId) + 1
    ensures again == NotFound && late == NotFound
    ensures forall n :: n in table.List() ==> n.id != id
    ensures exists i :: 0 <= i < |table.rows| && table.rows[i].id == id && !Active(table.rows[i])
  {
    var created := table.Create(Some("groceries"), Some("milk"), t0);
    id := created.value;
    assert table.rows[|table.rows| - 1] == Note(id, "groceries", "milk", t0, t0, None);
    assert Changes(table.rows, id) > 0;
    var updated := table.Update(id, Some("groceries"), Some("milk, eggs"), t1);
    assert updated.Ok?;
    var deleted := table.Delete(id, t2);
    assert deleted == Ok(());
    again := table.Delete(id, t2);
    late := table.Update(id, Some("x"), Some("y"), t2);
    forall n | n in table.List() ensures n.id != id {
    }
    assert table.rows[|table.rows| - 1].id == id;
  }
}
