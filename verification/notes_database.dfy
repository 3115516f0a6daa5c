/** The notes store of `js/NotesDatabase.js`. The `notes` table is a finite
    map from the primary key `id` to the rest of the row, and every public
    operation is a pure transition on it returning the operation's result
    (and, for the writing ones, the table afterwards).

    Each operation runs one SQL statement in one transaction. Whether that
    statement raises is the environment's choice, passed in as `db`; a
    raising statement rolls the transaction back, so the table is unchanged
    and the operation returns its failure value (null, false, [] or 0). */
module NotesDatabase {
  import opened Wrappers
  import opened JsString
  import opened NoteFactory
  import opened Recency
  import opened Search

  /** A row of `notes(id INTEGER PRIMARY KEY, title, body, created_at, updated_at)`
      without its key. */
  datatype Row = Row(title: string, body: string, createdAt: string, updatedAt: string)

  type Table = map<int, Row>

  /** Whether the operation's SQL statement runs (`Healthy`) or raises
      (`Failing`: a locked or unwritable database, an I/O error). A
      primary-key violation raises whatever this says. */
  datatype Storage = Healthy | Failing

  /** What a writing operation returns, and the table after it. */
  datatype Outcome<R> = Outcome(result: R, table: Table)

  function RowOf(n: Note): Row {
    Row(n.title, n.body, n.createdAt, n.updatedAt)
  }

  /** The record the JavaScript layer builds from a result row. */
  function NoteOf(id: int, row: Row): (n: Note)
    ensures n.id == id && RowOf(n) == row
  {
    Note(id, row.title, row.body, row.createdAt, row.updatedAt)
  }

  /** `n` is, field for field, the row stored under its id. */
  ghost predicate Stored(t: Table, n: Note) {
    n.id in t && t[n.id] == RowOf(n)
  }

  /** `rows` lists every row of `t` exactly once, most recently updated first. */
  ghost predicate IsListing(t: Table, rows: seq<Note>) {
    && DistinctIds(rows)
    && (forall i :: 0 <= i < |rows| ==> Stored(t, rows[i]))
    && (forall id :: id in t ==> NoteOf(id, t[id]) in rows)
    && SortedByRecency(rows)
  }

  /** What create and update guarantee of every row they write: a
      non-blank title, and a title and body with no surrounding whitespace. */
  ghost predicate ValidRow(row: Row) {
    && !IsBlank(row.title)
    && Trim(row.title) == row.title
    && Trim(row.body) == row.body
  }

  ghost predicate Valid(t: Table) {
    forall id :: id in t ==> ValidRow(t[id])
  }

  /** A row written from a non-blank title and any body, both trimmed, is valid. */
  lemma TrimmedRowValid(title: string, body: string, createdAt: string, updatedAt: string)
    requires !IsBlank(title)
    ensures ValidRow(Row(Trim(title), Trim(body), createdAt, updatedAt))
  {
    TrimIdempotent(title);
    TrimIdempotent(body);
    var t := Trim(title);
    assert t != [];
    assert !IsBlank(t) by {
      assert !IsWhitespace(t[0]);
    }
  }

  /** The rows a non-blank search term selects. */
  function Matching(t: Table, term: string): (m: Table)
    ensures m.Keys <= t.Keys
    ensures forall id :: id in t ==> (id in m <==> Matches(NoteOf(id, t[id]), term))
    ensures forall id :: id in m ==> m[id] == t[id]
  {
    map id | id in t && Matches(NoteOf(id, t[id]), term) :: t[id]
  }

  lemma NonEmptyHasMember(keys: set<int>)
    requires keys != {}
    ensures exists k :: k in keys
  {
    assert (forall k :: k !in keys) ==> keys == {};
  }

  lemma {:induction false} LeastExists(keys: set<int>)
    requires keys != {}
    ensures exists k :: k in keys && forall j :: j in keys ==> k <= j
  {
    NonEmptyHasMember(keys);
    var x :| x in keys;
    var rest := keys - {x};
    if keys == {x} {
      assert forall j :: j in keys ==> x <= j;
    } else {
      assert rest != {} by {
        assert rest == {} ==> keys == {x};
      }
      LeastExists(rest);
      var k :| k in rest && forall j :: j in rest ==> k <= j;
      var m := if x < k then x else k;
      forall j | j in keys
        ensures m <= j
      {
        if j != x {
          assert j in rest;
        }
      }
      assert m in keys;
    }
  }

  /** The smallest key. */
  function Least(keys: set<int>): (k: int)
    requires keys != {}
    ensures k in keys && forall j :: j in keys ==> k <= j
  {
    LeastExists(keys);
    var k :| k in keys && forall j :: j in keys ==> k <= j;
    k
  }

  /** The keys in ascending order: the order a full scan of the table visits
      its rows in, since an INTEGER PRIMARY KEY is the rowid. */
  function KeysAscending(keys: set<int>): (r: seq<int>)
    ensures |r| == |keys|
    ensures forall k :: k in r <==> k in keys
    ensures forall i, j :: 0 <= i < j < |r| ==> r[i] < r[j]
    decreases |keys|
  {
    if keys == {} then []
    else
      var k := Least(keys);
      var rest := KeysAscending(keys - {k});
      AscendingCons(keys, k, rest);
      [k] + rest
  }

  lemma AscendingCons(keys: set<int>, k: int, rest: seq<int>)
    requires k in keys && forall j :: j in keys ==> k <= j
    requires |rest| == |keys - {k}|
    requires forall j :: j in rest <==> j in keys - {k}
    requires forall i, j :: 0 <= i < j < |rest| ==> rest[i] < rest[j]
    ensures |[k] + rest| == |keys|
    ensures forall j :: j in [k] + rest <==> j in keys
    ensures forall i, j :: 0 <= i < j < |[k] + rest| ==> ([k] + rest)[i] < ([k] + rest)[j]
  {
    var r := [k] + rest;
    forall j | 0 < j < |r|
      ensures k < r[j]
    {
      assert r[j] == rest[j - 1];
      assert rest[j - 1] in rest;
    }
  }

  /** The records of the rows under the keys `ks`, in that order. */
  function RowsOf(t: Table, ks: seq<int>): (rows: seq<Note>)
    requires forall k :: k in ks ==> k in t
    ensures |rows| == |ks|
    ensures forall i :: 0 <= i < |ks| ==> rows[i] == NoteOf(ks[i], t[ks[i]])
  {
    if ks == [] then [] else [NoteOf(ks[0], t[ks[0]])] + RowsOf(t, ks[1..])
  }

  /** Every row of the table as a note record, in scan order. */
  function Records(t: Table): (rows: seq<Note>)
    ensures |rows| == |t|
    ensures DistinctIds(rows)
    ensures forall i :: 0 <= i < |rows| ==> Stored(t, rows[i])
    ensures forall id :: id in t ==> NoteOf(id, t[id]) in rows
  {
    var ks := KeysAscending(t.Keys);
    var rows := RowsOf(t, ks);
    RecordsCover(t, ks, rows);
    rows
  }

  lemma RecordsCover(t: Table, ks: seq<int>, rows: seq<Note>)
    requires forall k :: k in ks <==> k in t
    requires forall i, j :: 0 <= i < j < |ks| ==> ks[i] < ks[j]
    requires |rows| == |ks|
    requires forall i :: 0 <= i < |ks| ==> rows[i] == NoteOf(ks[i], t[ks[i]])
    ensures DistinctIds(rows)
    ensures forall i :: 0 <= i < |rows| ==> Stored(t, rows[i])
    ensures forall id :: id in t ==> NoteOf(id, t[id]) in rows
  {
    forall i, j | 0 <= i < j < |rows|
      ensures rows[i].id != rows[j].id
    {
      assert rows[i].id == ks[i] && rows[j].id == ks[j];
    }
    forall id | id in t
      ensures NoteOf(id, t[id]) in rows
    {
      var i :| 0 <= i < |ks| && ks[i] == id;
      assert rows[i] == NoteOf(id, t[id]);
    }
  }

  /** A sorted permutation of listed rows is itself a listing. */
  lemma SortedRecordsList(t: Table, xs: seq<Note>, rows: seq<Note>)
    requires DistinctIds(xs)
    requires forall i :: 0 <= i < |xs| ==> Stored(t, xs[i])
    requires forall id :: id in t ==> NoteOf(id, t[id]) in xs
    requires multiset(rows) == multiset(xs)
    requires DistinctIds(rows) && SortedByRecency(rows)
    ensures IsListing(t, rows)
  {
    forall i | 0 <= i < |rows|
      ensures Stored(t, rows[i])
    {
      assert rows[i] in multiset(xs);
    }
    forall id | id in t
      ensures NoteOf(id, t[id]) in rows
    {
      assert NoteOf(id, t[id]) in multiset(rows);
    }
  }

  /** `getAllNotes()`: every row, most recently updated first, or [] when
      the query raises. */
  function GetAllNotes(t: Table, db: Storage): (rows: seq<Note>)
    ensures db.Failing? ==> rows == []
    ensures db.Healthy? ==> IsListing(t, rows) && |rows| == |t|
  {
    if db.Failing? then []
    else
      var rows := Sort(Records(t));
      SortedRecordsList(t, Records(t), rows);
      rows
  }

  /** Writing a valid row keeps the table valid. */
  lemma ValidPut(t: Table, id: int, row: Row)
    ensures Valid(t) && ValidRow(row) ==> Valid(t[id := row])
  {
  }

  /** `createNote(title, body)` with `id` the fresh identifier (`Date.now()`
      in the source) and `createdNow`, `updatedNow` the two clock readings the
      note factory takes for its timestamps. A blank title is refused
      before the database is touched; an id already present is a primary-key
      violation, which raises like any storage failure. */
  function CreateNote(t: Table, title: string, body: string, id: int,
                      createdNow: string, updatedNow: string, db: Storage)
    : (o: Outcome<Option<Note>>)
    ensures o.result.Some? <==> !IsBlank(title) && db.Healthy? && id !in t
    ensures o.result.None? ==> o.table == t
    ensures o.result.Some? ==>
              && o.result.value == Note(id, Trim(title), Trim(body), createdNow, updatedNow)
              && o.table.Keys == t.Keys + {id}
              && Stored(o.table, o.result.value)
              && (forall k :: k in t ==> o.table[k] == t[k])
    ensures Valid(t) ==> Valid(o.table)
  {
    if |Trim(title)| == 0 then Outcome(None, t)
    else
      var note := NoteFactory.CreateNote(id, createdNow, updatedNow, Some(Trim(title)), Some(Trim(body)));
      if db.Failing? || id in t then Outcome(None, t)
      else
        TrimmedRowValid(title, body, createdNow, updatedNow);
        ValidPut(t, id, RowOf(note));
        Outcome(Some(note), t[id := RowOf(note)])
  }

  /** `updateNote(id, title, body)` at clock reading `now`: rewrites the
      row with that id, true when a row was affected. An omitted body
      (`None`) makes its `trim()` throw inside the transaction; the error is
      caught, the transaction rolls back and the result is false. */
  function UpdateNote(t: Table, id: int, title: string, body: Option<string>, now: string, db: Storage)
    : (o: Outcome<bool>)
    ensures o.result <==> !IsBlank(title) && body.Some? && db.Healthy? && id in t
    ensures !o.result ==> o.table == t
    ensures o.result ==>
              && o.table.Keys == t.Keys
              && o.table[id] == Row(Trim(title), Trim(body.value), t[id].createdAt, now)
              && (forall k :: k in t && k != id ==> o.table[k] == t[k])
    ensures Valid(t) ==> Valid(o.table)
  {
    if |Trim(title)| == 0 || body.None? || db.Failing? || id !in t then Outcome(false, t)
    else
      var note := NoteFactory.UpdateNote(NoteOf(id, t[id]), Trim(title), Trim(body.value), now);
      TrimmedRowValid(title, body.value, t[id].createdAt, now);
      ValidPut(t, id, RowOf(note));
      Outcome(true, t[id := RowOf(note)])
  }

  /** `deleteNote(id)`: removes the row with that id, true when one was removed. */
  function DeleteNote(t: Table, id: int, db: Storage): (o: Outcome<bool>)
    ensures o.result <==> db.Healthy? && id in t
    ensures !o.result ==> o.table == t
    ensures db.Healthy? ==> id !in o.table
    ensures o.result ==> o.table.Keys == t.Keys - {id}
    ensures forall k :: k in o.table ==> k in t && o.table[k] == t[k]
    ensures Valid(t) ==> Valid(o.table)
  {
    if db.Failing? || id !in t then Outcome(false, t)
    else Outcome(true, t - {id})
  }

  /** `getNoteById(id)`: the stored note, or null when absent or on failure. */
  function GetNoteById(t: Table, id: int, db: Storage): (r: Option<Note>)
    ensures r.Some? <==> db.Healthy? && id in t
    ensures r.Some? ==> r.value.id == id && Stored(t, r.value)
  {
    if db.Failing? || id !in t then None else Some(NoteOf(id, t[id]))
  }

  /** `getNotesCount()`: the number of rows, or 0 on failure. */
  function GetNotesCount(t: Table, db: Storage): (n: nat)
    ensures db.Healthy? ==> n == |t.Keys|
    ensures db.Failing? ==> n == 0
  {
    if db.Failing? then 0 else |t|
  }

  /** `clearAllNotes()`: removes every row, true on success. */
  function ClearAllNotes(t: Table, db: Storage): (o: Outcome<bool>)
    ensures o.result <==> db.Healthy?
    ensures o.result ==> o.table == map[]
    ensures !o.result ==> o.table == t
    ensures Valid(t) ==> Valid(o.table)
  {
    if db.Failing? then Outcome(false, t) else Outcome(true, map[])
  }

  /** `searchNotes(term)`: a blank term is `getAllNotes()`; otherwise the
      notes whose title or body contains the term, most recent first. */
  function SearchNotes(t: Table, term: string, db: Storage): (rows: seq<Note>)
    ensures IsBlank(term) ==> rows == GetAllNotes(t, db)
    ensures !IsBlank(term) && db.Failing? ==> rows == []
    ensures !IsBlank(term) && db.Healthy? ==>
              && IsListing(Matching(t, term), rows)
              && rows == Filter(GetAllNotes(t, db), term)
  {
    if |Trim(term)| == 0 then GetAllNotes(t, db)
    else if db.Failing? then []
    else
      var recs := Records(t);
      var selected := Filter(recs, term);
      var rows := Sort(selected);
      SortFilterCommute(recs, term);
      SelectedRecordsList(t, term, recs, selected);
      SortedRecordsList(Matching(t, term), selected, rows);
      rows
  }

  /** The matching records of a table are the records of its matching part. */
  lemma SelectedRecordsList(t: Table, term: string, recs: seq<Note>, selected: seq<Note>)
    requires DistinctIds(recs)
    requires forall i :: 0 <= i < |recs| ==> Stored(t, recs[i])
    requires forall id :: id in t ==> NoteOf(id, t[id]) in recs
    requires selected == Filter(recs, term)
    ensures DistinctIds(selected)
    ensures forall i :: 0 <= i < |selected| ==> Stored(Matching(t, term), selected[i])
    ensures forall id :: id in Matching(t, term) ==> NoteOf(id, Matching(t, term)[id]) in selected
  {
    var m := Matching(t, term);
    forall i | 0 <= i < |selected|
      ensures Stored(m, selected[i])
    {
      var n := selected[i];
      assert n in recs;
      var j :| 0 <= j < |recs| && recs[j] == n;
      assert Stored(t, recs[j]);
      assert NoteOf(n.id, t[n.id]) == n;
    }
  }

  /** Round trip: a created note reads back by its id equal in every field
      to what `createNote` returned. */
  lemma CreateThenGet(t: Table, title: string, body: string, id: int, createdNow: string, updatedNow: string)
    requires CreateNote(t, title, body, id, createdNow, updatedNow, Healthy).result.Some?
    ensures var o := CreateNote(t, title, body, id, createdNow, updatedNow, Healthy);
            GetNoteById(o.table, id, Healthy) == o.result
  {
  }

  /** A successful create adds exactly one note to the count, a refused or
      failed one none. */
  lemma CreateCount(t: Table, title: string, body: string, id: int,
                    createdNow: string, updatedNow: string, db: Storage)
    ensures var o := CreateNote(t, title, body, id, createdNow, updatedNow, db);
            GetNotesCount(o.table, Healthy) == GetNotesCount(t, Healthy) + (if o.result.Some? then 1 else 0)
  {
  }

  /** After a successful update the note reads back with the new content and
      update time, its creation time kept, and the count unchanged. */
  lemma UpdateThenGet(t: Table, id: int, title: string, body: string, now: string)
    requires UpdateNote(t, id, title, Some(body), now, Healthy).result
    ensures var o := UpdateNote(t, id, title, Some(body), now, Healthy);
            && GetNoteById(o.table, id, Healthy) == Some(Note(id, Trim(title), Trim(body), t[id].createdAt, now))
            && GetNotesCount(o.table, Healthy) == GetNotesCount(t, Healthy)
  {
  }

  /** A note updated at a time later than every other note's update time is
      listed first. */
  lemma UpdatedNoteListedFirst(t: Table, id: int, title: string, body: string, now: string)
    requires UpdateNote(t, id, title, Some(body), now, Healthy).result
    requires forall k :: k in t && k != id ==> !TextLe(now, t[k].updatedAt)
    ensures var rows := GetAllNotes(UpdateNote(t, id, title, Some(body), now, Healthy).table, Healthy);
            rows != [] && rows[0] == Note(id, Trim(title), Trim(body), t[id].createdAt, now)
  {
    var t' := UpdateNote(t, id, title, Some(body), now, Healthy).table;
    var rows := GetAllNotes(t', Healthy);
    var n := NoteOf(id, t'[id]);
    assert n in rows;
    var j :| 0 <= j < |rows| && rows[j] == n;
    assert Stored(t', rows[0]);
    assert j == 0;
  }

  /** Deleting removes the note and one from the count; deleting the same id
      again reports false and changes nothing. */
  lemma DeleteTwice(t: Table, id: int)
    ensures var first := DeleteNote(t, id, Healthy);
            var second := DeleteNote(first.table, id, Healthy);
            && GetNoteById(first.table, id, Healthy) == None
            && GetNotesCount(first.table, Healthy) == GetNotesCount(t, Healthy) - (if first.result then 1 else 0)
            && !second.result
            && second.table == first.table
  {
  }

  /** After a successful clear nothing is left to count, list or find. */
  lemma ClearEmpties(t: Table, id: int, term: string)
    ensures var o := ClearAllNotes(t, Healthy);
            && GetNotesCount(o.table, Healthy) == 0
            && GetAllNotes(o.table, Healthy) == []
            && SearchNotes(o.table, term, Healthy) == []
            && GetNoteById(o.table, id, Healthy) == None
  {
  }

  /** The count agrees with the length of the full listing. */
  lemma CountIsListingLength(t: Table, db: Storage)
    ensures GetNotesCount(t, db) == |GetAllNotes(t, db)|
  {
  }
}
