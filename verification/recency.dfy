/** Ordering of query results by `updated_at DESC`. The column is TEXT, so
    SQLite compares it with its BINARY collation: byte-wise over UTF-8,
    which is the code-point lexicographic order used here. */
module Recency {
  import opened NoteFactory

  /** `a` sorts no later than `b` under the BINARY collation: `a` is a
      prefix of `b`, or is smaller at the first position where they differ. */
  predicate TextLe(a: string, b: string) {
    if a == [] then true
    else if b == [] then false
    else if a[0] != b[0] then a[0] < b[0]
    else TextLe(a[1..], b[1..])
  }

  lemma {:induction false} TextLeTotal(a: string, b: string)
    ensures TextLe(a, b) || TextLe(b, a)
  {
    if a != [] && b != [] && a[0] == b[0] {
      TextLeTotal(a[1..], b[1..]);
    }
  }

  lemma {:induction false} TextLeTransitive(a: string, b: string, c: string)
    requires TextLe(a, b) && TextLe(b, c)
    ensures TextLe(a, c)
  {
    if a != [] && b != [] && c != [] && a[0] == b[0] && b[0] == c[0] {
      TextLeTransitive(a[1..], b[1..], c[1..]);
    }
  }

  lemma {:induction false} TextLeAntisymmetric(a: string, b: string)
    requires TextLe(a, b) && TextLe(b, a)
    ensures a == b
  {
    if a != [] && b != [] {
      TextLeAntisymmetric(a[1..], b[1..]);
      assert a == [a[0]] + a[1..] && b == [b[0]] + b[1..];
    }
  }

  /** `a` was updated strictly later than `b`. */
  predicate Later(a: Note, b: Note) {
    !TextLe(a.updatedAt, b.updatedAt)
  }

  /** Most recently updated first: `ORDER BY updated_at DESC`. */
  ghost predicate SortedByRecency(rows: seq<Note>) {
    forall i, j :: 0 <= i < j < |rows| ==> TextLe(rows[j].updatedAt, rows[i].updatedAt)
  }

  /** No two rows share an id. */
  ghost predicate DistinctIds(rows: seq<Note>) {
    forall i, j :: 0 <= i < j < |rows| ==> rows[i].id != rows[j].id
  }

  /** Places `x` after the rows updated strictly later than it and before
      the others, so that equal update times keep their input order. */
  function Insert(x: Note, ys: seq<Note>): (r: seq<Note>)
    ensures multiset(r) == multiset(ys) + multiset{x}
    ensures |r| == |ys| + 1
    ensures SortedByRecency(ys) ==> SortedByRecency(r)
    ensures DistinctIds(ys) && (forall z :: z in ys ==> z.id != x.id) ==> DistinctIds(r)
  {
    if ys == [] || !Later(ys[0], x) then
      InsertFront(x, ys);
      [x] + ys
    else
      var rest := Insert(x, ys[1..]);
      InsertBehind(x, ys, rest);
      [ys[0]] + rest
  }

  lemma InsertFront(x: Note, ys: seq<Note>)
    requires ys == [] || !Later(ys[0], x)
    ensures SortedByRecency(ys) ==> SortedByRecency([x] + ys)
    ensures DistinctIds(ys) && (forall z :: z in ys ==> z.id != x.id) ==> DistinctIds([x] + ys)
  {
    var r := [x] + ys;
    if SortedByRecency(ys) && ys != [] {
      forall j | 0 < j < |r|
        ensures TextLe(r[j].updatedAt, x.updatedAt)
      {
        if j > 1 {
          TextLeTransitive(r[j].updatedAt, ys[0].updatedAt, x.updatedAt);
        }
      }
    }
    if DistinctIds(ys) && (forall z :: z in ys ==> z.id != x.id) {
      forall i, j | 0 <= i < j < |r|
        ensures r[i].id != r[j].id
      {
        if i == 0 {
          assert r[j] in ys;
        }
      }
    }
  }

  lemma InsertBehind(x: Note, ys: seq<Note>, rest: seq<Note>)
    requires ys != [] && Later(ys[0], x)
    requires multiset(rest) == multiset(ys[1..]) + multiset{x}
    requires SortedByRecency(ys) ==> SortedByRecency(rest)
    requires DistinctIds(ys) && (forall z :: z in ys ==> z.id != x.id) ==> DistinctIds(rest)
    ensures multiset([ys[0]] + rest) == multiset(ys) + multiset{x}
    ensures SortedByRecency(ys) ==> SortedByRecency([ys[0]] + rest)
    ensures DistinctIds(ys) && (forall z :: z in ys ==> z.id != x.id) ==> DistinctIds([ys[0]] + rest)
  {
    assert ys == [ys[0]] + ys[1..];
    forall z | z in rest
      ensures z == x || z in ys[1..]
    {
      assert z in multiset(rest);
    }
    if SortedByRecency(ys) {
      BehindSorted(x, ys, rest);
    }
    if DistinctIds(ys) && (forall z :: z in ys ==> z.id != x.id) {
      BehindDistinct(x, ys, rest);
    }
  }

  lemma BehindSorted(x: Note, ys: seq<Note>, rest: seq<Note>)
    requires ys != [] && Later(ys[0], x)
    requires forall z :: z in rest ==> z == x || z in ys[1..]
    requires SortedByRecency(ys) && SortedByRecency(rest)
    ensures SortedByRecency([ys[0]] + rest)
  {
    var r := [ys[0]] + rest;
    TextLeTotal(x.updatedAt, ys[0].updatedAt);
    forall j | 0 < j < |r|
      ensures TextLe(r[j].updatedAt, ys[0].updatedAt)
    {
      assert r[j] in rest;
      if r[j] != x {
        var k :| 0 <= k < |ys[1..]| && ys[1..][k] == r[j];
        assert ys[k + 1] == r[j];
      }
    }
  }

  lemma BehindDistinct(x: Note, ys: seq<Note>, rest: seq<Note>)
    requires ys != []
    requires forall z :: z in rest ==> z == x || z in ys[1..]
    requires DistinctIds(ys) && (forall z :: z in ys ==> z.id != x.id) && DistinctIds(rest)
    ensures DistinctIds([ys[0]] + rest)
  {
    var r := [ys[0]] + rest;
    forall j | 0 < j < |r|
      ensures r[0].id != r[j].id
    {
      assert r[j] in rest;
      if r[j] != x {
        var k :| 0 <= k < |ys[1..]| && ys[1..][k] == r[j];
        assert ys[k + 1] == r[j];
      }
    }
  }

  /** Stable insertion sort by `updated_at` descending. */
  function Sort(xs: seq<Note>): (r: seq<Note>)
    ensures multiset(r) == multiset(xs)
    ensures |r| == |xs|
    ensures SortedByRecency(r)
    ensures DistinctIds(xs) ==> DistinctIds(r)
  {
    if xs == [] then []
    else
      var rest := Sort(xs[1..]);
      SortStep(xs, rest);
      Insert(xs[0], rest)
  }

  /** What inserting the head into the sorted tail needs to know. */
  lemma SortStep(xs: seq<Note>, rest: seq<Note>)
    requires xs != []
    requires multiset(rest) == multiset(xs[1..])
    ensures multiset(xs) == multiset(xs[1..]) + multiset{xs[0]}
    ensures DistinctIds(xs) ==> DistinctIds(xs[1..]) && forall z :: z in rest ==> z.id != xs[0].id
  {
    assert xs == [xs[0]] + xs[1..];
    if DistinctIds(xs) {
      forall z | z in rest
        ensures z.id != xs[0].id
      {
        assert z in multiset(xs[1..]);
        var k :| 0 <= k < |xs[1..]| && xs[1..][k] == z;
        assert xs[k + 1] == z;
      }
    }
  }
}
