/** The filter behind `searchNotes`: a note matches a term when its title
    or its body contains the term. SQL `LIKE '%term%'` is modelled as plain,
    case-sensitive substring containment. */
module Search {
  import opened JsString
  import opened NoteFactory
  import opened Recency

  predicate Matches(n: Note, term: string) {
    Contains(n.title, term) || Contains(n.body, term)
  }

  /** The rows of `xs` that match `term`, in their order. */
  function Filter(xs: seq<Note>, term: string): (r: seq<Note>)
    ensures |r| <= |xs|
    ensures forall z :: z in r <==> z in xs && Matches(z, term)
    ensures DistinctIds(xs) ==> DistinctIds(r)
    ensures SortedByRecency(xs) ==> SortedByRecency(r)
  {
    if xs == [] then []
    else
      var rest := Filter(xs[1..], term);
      assert xs == [xs[0]] + xs[1..];
      if Matches(xs[0], term) then
        FilterHead(xs, rest);
        [xs[0]] + rest
      else
        rest
  }

  lemma FilterHead(xs: seq<Note>, rest: seq<Note>)
    requires xs != []
    requires forall z :: z in rest ==> z in xs[1..]
    requires DistinctIds(xs[1..]) ==> DistinctIds(rest)
    requires SortedByRecency(xs[1..]) ==> SortedByRecency(rest)
    ensures DistinctIds(xs) ==> DistinctIds([xs[0]] + rest)
    ensures SortedByRecency(xs) ==> SortedByRecency([xs[0]] + rest)
  {
    var r := [xs[0]] + rest;
    forall j | 0 < j < |r|
      ensures exists k :: 0 < k < |xs| && xs[k] == r[j]
    {
      assert r[j] in xs[1..];
      var k :| 0 <= k < |xs[1..]| && xs[1..][k] == r[j];
      assert xs[k + 1] == r[j];
    }
  }

  /** `f` maps each position of `r` to a position of `xs` holding the same
      row, strictly increasing: `r` is `xs` with some rows dropped. */
  ghost predicate Embeds<T>(r: seq<T>, xs: seq<T>, f: seq<int>) {
    && |f| == |r|
    && (forall i :: 0 <= i < |r| ==> 0 <= f[i] < |xs| && xs[f[i]] == r[i])
    && (forall i, j :: 0 <= i < j < |r| ==> f[i] < f[j])
  }

  ghost predicate IsSubsequence<T>(r: seq<T>, xs: seq<T>) {
    exists f :: Embeds(r, xs, f)
  }

  /** The filter only drops rows: the kept ones stay in their input order,
      ties in `updated_at` included. */
  lemma {:induction false} FilterSubsequence(xs: seq<Note>, term: string)
    ensures IsSubsequence(Filter(xs, term), xs)
  {
    if xs == [] {
      assert Embeds(Filter(xs, term), xs, []);
    } else {
      var rest := Filter(xs[1..], term);
      FilterSubsequence(xs[1..], term);
      var g :| Embeds(rest, xs[1..], g);
      if Matches(xs[0], term) {
        assert Filter(xs, term) == [xs[0]] + rest;
        EmbedsKeep(rest, xs, g);
      } else {
        assert Filter(xs, term) == rest;
        EmbedsDrop(rest, xs, g);
      }
    }
  }

  function Shifted(g: seq<int>): (h: seq<int>)
    ensures |h| == |g|
    ensures forall i :: 0 <= i < |g| ==> h[i] == g[i] + 1
  {
    seq(|g|, i requires 0 <= i < |g| => g[i] + 1)
  }

  /** An embedding into the tail extends by the head. */
  lemma EmbedsKeep<T>(rest: seq<T>, xs: seq<T>, g: seq<int>)
    requires xs != [] && Embeds(rest, xs[1..], g)
    ensures Embeds([xs[0]] + rest, xs, [0] + Shifted(g))
  {
  }

  /** An embedding into the tail is one into the whole sequence. */
  lemma EmbedsDrop<T>(rest: seq<T>, xs: seq<T>, g: seq<int>)
    requires xs != [] && Embeds(rest, xs[1..], g)
    ensures Embeds(rest, xs, Shifted(g))
  {
  }

  /** Filtering ignores a non-matching row wherever it is inserted. */
  lemma {:induction false} FilterInsertSkip(x: Note, ys: seq<Note>, term: string)
    requires !Matches(x, term)
    ensures Filter(Insert(x, ys), term) == Filter(ys, term)
  {
    if ys != [] && Later(ys[0], x) {
      FilterInsertSkip(x, ys[1..], term);
      assert ([ys[0]] + Insert(x, ys[1..]))[1..] == Insert(x, ys[1..]);
    }
  }

  /** Inserting a matching row and then filtering is filtering and then
      inserting, on a list already ordered by recency. */
  lemma {:induction false} FilterInsertKeep(x: Note, ys: seq<Note>, term: string)
    requires Matches(x, term)
    requires SortedByRecency(ys)
    ensures Filter(Insert(x, ys), term) == Insert(x, Filter(ys, term))
  {
    if ys == [] {
    } else if !Later(ys[0], x) {
      FilterInsertFront(x, ys, term);
    } else {
      FilterInsertKeep(x, ys[1..], term);
      assert ([ys[0]] + Insert(x, ys[1..]))[1..] == Insert(x, ys[1..]);
    }
  }

  /** A row that goes in front of an ordered list also goes in front of
      every sub-list of it. */
  lemma FilterInsertFront(x: Note, ys: seq<Note>, term: string)
    requires Matches(x, term)
    requires SortedByRecency(ys)
    requires ys != [] && !Later(ys[0], x)
    ensures Filter(Insert(x, ys), term) == Insert(x, Filter(ys, term))
  {
    var fs := Filter(ys, term);
    assert Insert(x, ys) == [x] + ys;
    assert ([x] + ys)[1..] == ys;
    assert Filter([x] + ys, term) == [x] + fs;
    if fs != [] {
      assert fs[0] in ys;
      var k :| 0 <= k < |ys| && ys[k] == fs[0];
      if k > 0 {
        TextLeTransitive(fs[0].updatedAt, ys[0].updatedAt, x.updatedAt);
      }
      assert !Later(fs[0], x);
    }
    assert Insert(x, fs) == [x] + fs;
  }

  /** Sorting commutes with filtering: selecting the matching rows and then
      ordering them gives the matching rows of the ordered list, in order. */
  lemma {:induction false} SortFilterCommute(xs: seq<Note>, term: string)
    ensures Sort(Filter(xs, term)) == Filter(Sort(xs), term)
  {
    if xs != [] {
      SortFilterCommute(xs[1..], term);
      if Matches(xs[0], term) {
        assert Filter(xs, term)[1..] == Filter(xs[1..], term);
        FilterInsertKeep(xs[0], Sort(xs[1..]), term);
      } else {
        FilterInsertSkip(xs[0], Sort(xs[1..]), term);
      }
    }
  }
}
