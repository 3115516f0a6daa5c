# Notes data layer, modelled in Dafny

This project models the data layer of a QML note-taking application: the
note factory of `js/Note.js` and the notes store of `js/NotesDatabase.js`.

- **Note factory** (`note_factory.dfy`, module `NoteFactory`). A note is a
  record `{id, title, body, createdAt, updatedAt}`. The module covers:
  - `createNote`: builds a note. The fresh id and the two ISO clock
    readings (one for `createdAt`, one for `updatedAt`) are parameters.
  - `updateNote`: replaces the content and refreshes the update time.
  - `validateNote`: a shape check over a small datatype of JavaScript
    values. It returns the falsy argument itself, or a boolean, as the
    `&&` chain does. JavaScript truthiness over that datatype is the
    predicate `NoteFactory.Truthy`; it decides the `&&` chain. The tests
    `title || ""`, `!body` and `maxLength || 50` are modelled over
    `Option` (absent, empty string, zero), where they agree with it.
  - `getPreview`: the first line of a body, cut with an ellipsis.
- **Notes store** (`notes_database.dfy`, module `NotesDatabase`). The `notes`
  table is a `map<int, Row>` from the primary key to the rest of the row.
  Each public operation is a pure function of the table:
  - `createNote`, `updateNote`, `deleteNote` and `clearAllNotes` return
    their result and the table afterwards.
  - `getNoteById`, `getAllNotes`, `searchNotes` and `getNotesCount` return
    their result only.
  - A `Storage` parameter says whether the operation's SQL statement runs
    or raises. When it raises, the transaction rolls back: the table is
    unchanged and the operation returns its sentinel (null, false, [] or 0).
  - Inserting an id that is already present violates the primary key and
    fails in the same way.
- **Supporting modules**:
  - `js_string.dfy`: JavaScript `trim`, `split('\n')[0]`, `substring`
    clamping, and substring search. The characters `trim` removes are the
    predicate `JsString.IsWhitespace`, ECMAScript's WhiteSpace and
    LineTerminator sets.
  - `recency.dfy`: `ORDER BY updated_at DESC`. The TEXT column is compared
    with SQLite's BINARY collation, which is code-point lexicographic order.
    The module also holds a stable insertion sort.
  - `search.dfy`: the title-or-body filter of `searchNotes`. The predicate
    `Search.Matches` is the query's condition on one row (title or body
    contains the term). The module proves that the filter keeps its input
    order and that sorting commutes with it.

The store keeps one invariant, `Valid`: every stored title is non-blank and
trimmed, and every body is trimmed. Create, update, delete and clear all
preserve it.

## Model

| member | source | states |
|---|---|---|
| JsString.Trim | build/Desktop_Qt_6_9_2_MinGW_64_bit-Debug/NoteBook/js/NotesDatabase.js:75 | `trim` yields the empty string exactly when the input is all whitespace, and otherwise neither starts nor ends with whitespace |
| JsString.TrimStrips | build/Desktop_Qt_6_9_2_MinGW_64_bit-Debug/NoteBook/js/NotesDatabase.js:80 | the trimmed string is a contiguous slice of the input, and only whitespace lies before and after it |
| JsString.TrimStartSpec | build/Desktop_Qt_6_9_2_MinGW_64_bit-Debug/NoteBook/js/NotesDatabase.js:80 | stripping leading whitespace leaves the longest suffix that does not start with whitespace |
| JsString.TrimEndSpec | build/Desktop_Qt_6_9_2_MinGW_64_bit-Debug/NoteBook/js/NotesDatabase.js:80 | stripping trailing whitespace leaves the longest prefix that does not end with whitespace |
| JsString.TrimIdempotent | build/Desktop_Qt_6_9_2_MinGW_64_bit-Debug/NoteBook/js/NotesDatabase.js:116 | trimming twice is trimming once, so stored titles and bodies are already trimmed |
| JsString.FirstLine | build/Desktop_Qt_6_9_2_MinGW_64_bit-Debug/NoteBook/js/Note.js:54 | `split('\n')[0]` is a prefix of the body without a line feed, ending at the body's end or just before a line feed |
| JsString.FirstLineUnique | build/Desktop_Qt_6_9_2_MinGW_64_bit-Debug/NoteBook/js/Note.js:54 | any prefix with those three properties is the first line |
| JsString.Substring | build/Desktop_Qt_6_9_2_MinGW_64_bit-Debug/NoteBook/js/Note.js:60 | `substring(0, end)` is a prefix whose length is `end` clamped to the string; in-range positions give the plain slice |
| JsString.ContainsIff | build/Desktop_Qt_6_9_2_MinGW_64_bit-Debug/NoteBook/js/NotesDatabase.js:202-203 | the containment test used for `LIKE '%term%'` holds exactly when the term occurs at some index |
| NoteFactory.CreateNote | build/Desktop_Qt_6_9_2_MinGW_64_bit-Debug/NoteBook/js/Note.js:5-13 | the note has the supplied id, `createdAt` the first clock reading, `updatedAt` the second, and the given title and body, with `""` for an omitted one |
| NoteFactory.UpdateNote | build/Desktop_Qt_6_9_2_MinGW_64_bit-Debug/NoteBook/js/Note.js:16-21 | title, body and updatedAt take the new values; id and createdAt are unchanged |
| NoteFactory.ValidateNote | build/Desktop_Qt_6_9_2_MinGW_64_bit-Debug/NoteBook/js/Note.js:24-29 | a falsy argument is returned as it is; otherwise the result is a boolean, true iff `id` is defined and `title` and `body` are strings; only objects validate |
| NoteFactory.FactoryNotesValidate | build/Desktop_Qt_6_9_2_MinGW_64_bit-Debug/NoteBook/js/Note.js:5-29 | every note the factory creates, and every update of one, passes `validateNote` |
| NoteFactory.PreviewLimit | build/Desktop_Qt_6_9_2_MinGW_64_bit-Debug/NoteBook/js/Note.js:53 | `maxLength \|\| 50`: an omitted or zero limit is 50; any other limit is kept |
| NoteFactory.GetPreview | build/Desktop_Qt_6_9_2_MinGW_64_bit-Debug/NoteBook/js/Note.js:50-61 | "No content" for an absent or empty body. Otherwise: no line feed; a short enough first line is returned whole as a prefix of the body; a longer one becomes a prefix of it plus "...", exactly `maxLength` long when `maxLength >= 3`, and just "..." below that |
| NoteFactory.PreviewIsPrefix | build/Desktop_Qt_6_9_2_MinGW_64_bit-Debug/NoteBook/js/Note.js:54-60 | a preview is a prefix of the body, possibly followed by "...", and at most `max(maxLength, 3)` long |
| NoteFactory.PreviewDefaultLimit | build/Desktop_Qt_6_9_2_MinGW_64_bit-Debug/NoteBook/js/Note.js:53 | an omitted or zero limit gives the same preview as a limit of 50 |
| NoteFactory.PreviewFirstLineExample | build/Desktop_Qt_6_9_2_MinGW_64_bit-Debug/NoteBook/js/Note.js:54-57 | `"line one\nline two"` previews as `"line one"` |
| NoteFactory.PreviewTruncatedExample | build/Desktop_Qt_6_9_2_MinGW_64_bit-Debug/NoteBook/js/Note.js:60 | a 100-character line with limit 10 previews as 10 characters ending in "..." |
| Recency.TextLeTotal | build/Desktop_Qt_6_9_2_MinGW_64_bit-Debug/NoteBook/js/NotesDatabase.js:50 | any two `updated_at` texts are comparable under the BINARY collation |
| Recency.TextLeTransitive | build/Desktop_Qt_6_9_2_MinGW_64_bit-Debug/NoteBook/js/NotesDatabase.js:50 | the collation order is transitive |
| Recency.TextLeAntisymmetric | build/Desktop_Qt_6_9_2_MinGW_64_bit-Debug/NoteBook/js/NotesDatabase.js:50 | texts that sort both ways are equal |
| Recency.Insert | build/Desktop_Qt_6_9_2_MinGW_64_bit-Debug/NoteBook/js/NotesDatabase.js:50 | inserting adds exactly that row, keeps the rows ordered by `updated_at` descending, and keeps ids distinct |
| Recency.Sort | build/Desktop_Qt_6_9_2_MinGW_64_bit-Debug/NoteBook/js/NotesDatabase.js:50 | the result is a permutation of the input, ordered by `updated_at` descending, with ids still distinct |
| Search.Filter | build/Desktop_Qt_6_9_2_MinGW_64_bit-Debug/NoteBook/js/NotesDatabase.js:202 | keeps exactly the rows whose title or body contains the term; keeps distinct ids and the descending `updated_at` order |
| Search.FilterSubsequence | build/Desktop_Qt_6_9_2_MinGW_64_bit-Debug/NoteBook/js/NotesDatabase.js:202 | the filtered rows are the input with some rows dropped: a strictly increasing index map sends each kept row to its position in the input, so their relative order (ties included) is the input's |
| Search.FilterInsertKeep | build/Desktop_Qt_6_9_2_MinGW_64_bit-Debug/NoteBook/js/NotesDatabase.js:202 | on an ordered list, filtering after inserting a matching row equals inserting it into the filtered list |
| Search.FilterInsertSkip | build/Desktop_Qt_6_9_2_MinGW_64_bit-Debug/NoteBook/js/NotesDatabase.js:202 | a non-matching row vanishes from the filtered list wherever it was inserted |
| Search.SortFilterCommute | build/Desktop_Qt_6_9_2_MinGW_64_bit-Debug/NoteBook/js/NotesDatabase.js:202 | filtering and then ordering (what the search query does) equals ordering and then filtering (the full listing, filtered) |
| NotesDatabase.NoteOf | build/Desktop_Qt_6_9_2_MinGW_64_bit-Debug/NoteBook/js/NotesDatabase.js:173-179 | the record built from a result row carries the row's id and exactly the row's columns |
| NotesDatabase.Matching | build/Desktop_Qt_6_9_2_MinGW_64_bit-Debug/NoteBook/js/NotesDatabase.js:202 | the sub-table the search's WHERE clause selects: the rows whose title or body contains the term, unchanged |
| NotesDatabase.KeysAscending | build/Desktop_Qt_6_9_2_MinGW_64_bit-Debug/NoteBook/js/NotesDatabase.js:32 | the scan order of an INTEGER PRIMARY KEY table: every key once, strictly ascending |
| NotesDatabase.Records | build/Desktop_Qt_6_9_2_MinGW_64_bit-Debug/NoteBook/js/NotesDatabase.js:55-63 | one record per stored row, each equal to its row, with distinct ids |
| NotesDatabase.TrimmedRowValid | build/Desktop_Qt_6_9_2_MinGW_64_bit-Debug/NoteBook/js/NotesDatabase.js:80 | a row written from a non-blank title and any body, both trimmed, satisfies the table invariant |
| NotesDatabase.GetAllNotes | build/Desktop_Qt_6_9_2_MinGW_64_bit-Debug/NoteBook/js/NotesDatabase.js:43-71 | on success, every stored note exactly once, field for field, most recently updated first; `[]` when the query raises |
| NotesDatabase.CreateNote | build/Desktop_Qt_6_9_2_MinGW_64_bit-Debug/NoteBook/js/NotesDatabase.js:74-99 | succeeds iff the title is not blank, the statement runs and the id is new. On success: returns the note with trimmed title and body and the factory's two clock readings as `createdAt` and `updatedAt`; stores it under its id; changes no other row. Otherwise: null, table unchanged. Keeps `Valid` |
| NotesDatabase.UpdateNote | build/Desktop_Qt_6_9_2_MinGW_64_bit-Debug/NoteBook/js/NotesDatabase.js:102-131 | true iff the title is not blank, a body is supplied, the statement runs and the id is present. An omitted body makes `body.trim()` throw inside the `try`, so the update rolls back and returns false. On true: that row takes the trimmed title and body and `updated_at = now`, keeping `created_at`; no other row changes. On false: table unchanged. Keeps `Valid` |
| NotesDatabase.DeleteNote | build/Desktop_Qt_6_9_2_MinGW_64_bit-Debug/NoteBook/js/NotesDatabase.js:134-157 | true iff the statement runs and the id is present. After a run the id is absent, and exactly that key is removed when the result is true. Every remaining row is unchanged |
| NotesDatabase.GetNoteById | build/Desktop_Qt_6_9_2_MinGW_64_bit-Debug/NoteBook/js/NotesDatabase.js:160-188 | a note iff the query runs and the id is present; that note has the id and equals the stored row; null otherwise |
| NotesDatabase.GetNotesCount | build/Desktop_Qt_6_9_2_MinGW_64_bit-Debug/NoteBook/js/NotesDatabase.js:227-243 | the number of stored rows, or 0 when the query raises |
| NotesDatabase.ClearAllNotes | build/Desktop_Qt_6_9_2_MinGW_64_bit-Debug/NoteBook/js/NotesDatabase.js:246-261 | true iff the statement runs, and then the table is empty; on false the table is unchanged |
| NotesDatabase.SearchNotes | build/Desktop_Qt_6_9_2_MinGW_64_bit-Debug/NoteBook/js/NotesDatabase.js:191-224 | a blank term gives exactly `getAllNotes()`. Otherwise, on success: exactly the notes whose title or body contains the term, most recent first, which is the full listing filtered in its own order. `[]` when the query raises |
| NotesDatabase.CreateThenGet | build/Desktop_Qt_6_9_2_MinGW_64_bit-Debug/NoteBook/js/NotesDatabase.js:84-98 | a created note reads back by its id equal in every field to what create returned |
| NotesDatabase.CreateCount | build/Desktop_Qt_6_9_2_MinGW_64_bit-Debug/NoteBook/js/NotesDatabase.js:74-99 | a successful create raises the count by one; a refused or failed one leaves it |
| NotesDatabase.UpdateThenGet | build/Desktop_Qt_6_9_2_MinGW_64_bit-Debug/NoteBook/js/NotesDatabase.js:113-118 | after a successful update the note reads back with the new content and time, the same creation time, and the count unchanged |
| NotesDatabase.UpdatedNoteListedFirst | build/Desktop_Qt_6_9_2_MinGW_64_bit-Debug/NoteBook/js/NotesDatabase.js:110-118 | a note updated at a time later than every other note's update time heads the full listing |
| NotesDatabase.DeleteTwice | build/Desktop_Qt_6_9_2_MinGW_64_bit-Debug/NoteBook/js/NotesDatabase.js:139-144 | after a delete the id is not found and the count dropped by the number deleted; a second delete of the id returns false and changes nothing |
| NotesDatabase.ClearEmpties | build/Desktop_Qt_6_9_2_MinGW_64_bit-Debug/NoteBook/js/NotesDatabase.js:252 | after a successful clear the count is 0, and listing, search and lookup find nothing |
| NotesDatabase.CountIsListingLength | build/Desktop_Qt_6_9_2_MinGW_64_bit-Debug/NoteBook/js/NotesDatabase.js:233-235 | the count equals the length of the full listing |

## Left out

- `getDatabase` and the `DATABASE_*` constants (NotesDatabase.js:7-20) are connection plumbing. The model has one table value instead.
- `initializeDatabase` (NotesDatabase.js:23-40) only creates the table if it is missing. The model takes the table as always existing.
- Console logging is left out: it has no effect on results.
- `formatDate` (Note.js:32-47) is left out. It reads the wall clock and uses floating-point hour differences and locale formatting.
- `Date.now()` and `new Date().toISOString()` are not modelled. The fresh id and each timestamp string are parameters. `Note.js:10-11` reads the clock twice, so a new note's `createdAt` and `updatedAt` are two separate parameters; they are equal only when the caller passes the same reading.
- The invariant `updatedAt >= createdAt` is not stated. It holds only if the caller's clock never goes backwards, and the clock is an input here.
- Search is plain, case-sensitive substring containment. SQL `LIKE` is ASCII case-insensitive and treats `%` and `_` in the term as wildcards; neither is modelled.
- NotesDatabase.GetAllNotes and NotesDatabase.SearchNotes: SQL leaves the order of rows with equal `updated_at` to the engine. The model lists them by ascending id, which is the table's scan order under a stable sort. Its contract promises only the `updated_at` order, as the query does. `SearchNotes` is stated as the full listing filtered; that equality takes both queries to break ties the same way, which SQLite does not promise.
- Storage failure is modelled only where the SQL statement raises, which happens before the source sets its success flag. A failure at commit, after the callback set the flag, is not modelled.
- Crash paths are not modelled. These are `trim` on a non-string title (NotesDatabase.js:75 and 103) and `body.trim()` on an undefined body in `createNote` (NotesDatabase.js:80), which throw outside the `try`. Titles, and the body of `createNote`, are plain strings here; an omitted title behaves as the empty string and is refused. The undefined body of `updateNote` (NotesDatabase.js:116) throws inside the `try` and is modelled as a false result.
- NotesDatabase.CreateNote assumes that `Note.createNote` at NotesDatabase.js:80 is the factory of Note.js:5-13. As written, the file only runs `Qt.include("Note.js")` (NotesDatabase.js:4), which brings the factory's functions in unqualified; nothing binds the name `Note`, so line 80 would throw outside the `try`. The include also puts the factory's `createNote` and `updateNote` in the same scope as the store's functions of the same names; which binding wins is up to the engine and is not modelled. The model follows the evident intent rather than that name resolution.
- JsString.IsWhitespace follows ECMAScript's definition of `trim`. The QML engine's own `trim` may use a different set (for example one that also strips U+0085); that difference is not modelled.
- SQL NULL columns and SQLite type affinity are not modelled. For example, an id passed as a numeric string would still match.
- NoteFactory.UpdateNote mutates the note in place and returns that same object. The model returns an updated copy, so aliasing is not modelled.
- NoteFactory.GetPreview takes the limit to be an integer. A fractional limit is not modelled: JavaScript compares the length with it as written but `substring` truncates `maxLength - 3`, so the result can be shorter than the limit. NaN is not represented either (`NaN || 50` gives 50).
- NoteFactory.ValidateNote sees only an object's own properties (no prototype chain). Its numbers are integers, with NaN absent.
- NoteFactory.GetPreview counts length in Unicode scalar values. JavaScript counts UTF-16 code units, so the two differ for characters outside the Basic Multilingual Plane.
