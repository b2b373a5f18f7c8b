/** The home page listing (HomeView in webapp/views.py): only files whose access is
    'free', narrowed by the search value when one is given, newest first, in pages
    of ten. */
module HomeListing {
  import opened Models
  import opened Text

  /** `paginate_by`. */
  const PageSize: nat := 10

  /** One row of the file table: its primary key and its record. */
  datatype Row = Row(id: FileId, file: File)

  /** `if self.search_value:` — a search applies only when a non-empty value was given. */
  predicate SearchActive(search: Option<string>) {
    search.Some? && search.value != ""
  }

  /** The queryset filter: `access='free'`, and `name__icontains` when searching. */
  predicate Listed(f: File, search: Option<string>) {
    f.access == Free && (SearchActive(search) ==> IContains(f.name, search.value))
  }

  /** The rows the filter keeps, in their original order. */
  function Matching(rows: seq<Row>, search: Option<string>): (r: seq<Row>)
    ensures |r| <= |rows|
    ensures forall x :: x in r <==> x in rows && Listed(x.file, search)
    ensures multiset(r) <= multiset(rows)
  {
    if rows == [] then []
    else
      assert rows == [rows[0]] + rows[1..];
      (if Listed(rows[0].file, search) then [rows[0]] else []) + Matching(rows[1..], search)
  }

  /** `ordering = '-created_at'`: every row is at least as new as those after it. */
  ghost predicate NewestFirst(s: seq<Row>) {
    forall i, j :: 0 <= i < j < |s| ==> s[i].file.createdAt >= s[j].file.createdAt
  }

  /** Puts `x` before the first row that is strictly older than it. */
  function Insert(x: Row, s: seq<Row>): (r: seq<Row>)
    ensures multiset(r) == multiset(s) + multiset{x}
    ensures |r| == |s| + 1
  {
    if s == [] then [x]
    else if x.file.createdAt >= s[0].file.createdAt then [x] + s
    else
      assert s == [s[0]] + s[1..];
      [s[0]] + Insert(x, s[1..])
  }

  /** Inserting into a newest-first sequence keeps it newest first. */
  lemma {:induction false} InsertNewestFirst(x: Row, s: seq<Row>)
    requires NewestFirst(s)
    ensures NewestFirst(Insert(x, s))
  {
    if s != [] && x.file.createdAt < s[0].file.createdAt {
      var t := Insert(x, s[1..]);
      InsertNewestFirst(x, s[1..]);
      forall k | 0 <= k < |t| ensures s[0].file.createdAt >= t[k].file.createdAt {
        assert t[k] in multiset(t);
        assert t[k] == x || t[k] in multiset(s[1..]);
        assert s == [s[0]] + s[1..];
      }
    }
  }

  /** Orders rows newest first. */
  function SortNewestFirst(s: seq<Row>): (r: seq<Row>)
    ensures multiset(r) == multiset(s)
    ensures NewestFirst(r)
  {
    if s == [] then []
    else
      assert s == [s[0]] + s[1..];
      InsertNewestFirst(s[0], SortNewestFirst(s[1..]));
      Insert(s[0], SortNewestFirst(s[1..]))
  }

  /** `get_queryset` with the class's ordering: a newest-first arrangement of
      exactly the rows the filter keeps. */
  function Listing(rows: seq<Row>, search: Option<string>): (r: seq<Row>)
    ensures NewestFirst(r)
    ensures multiset(r) == multiset(Matching(rows, search))
    ensures forall x :: x in r <==> x in rows && Listed(x.file, search)
  {
    var r := SortNewestFirst(Matching(rows, search));
    assert forall x :: x in r <==> x in multiset(r);
    r
  }

  /** No two rows carry the same key. */
  ghost predicate DistinctIds(s: seq<Row>) {
    forall i, j :: 0 <= i < j < |s| ==> s[i].id != s[j].id
  }

  /** No row of `s` carries the key `id`. */
  ghost predicate IdFree(id: FileId, s: seq<Row>) {
    forall y :: y in s ==> y.id != id
  }

  lemma DistinctIdsCons(x: Row, s: seq<Row>)
    ensures DistinctIds([x] + s) <==> IdFree(x.id, s) && DistinctIds(s)
  {
    var t := [x] + s;
    if IdFree(x.id, s) && DistinctIds(s) {
      forall i, j | 0 <= i < j < |t| ensures t[i].id != t[j].id {
        assert t[j] == s[j - 1];
        if i > 0 {
          assert t[i] == s[i - 1];
        }
      }
    }
    if DistinctIds(t) {
      forall y | y in s ensures y.id != x.id {
        var k :| 0 <= k < |s| && s[k] == y;
        assert t[0] == x && t[k + 1] == y;
        assert t[0].id != t[k + 1].id;
      }
      forall i, j | 0 <= i < j < |s| ensures s[i].id != s[j].id {
        assert t[i + 1] == s[i] && t[j + 1] == s[j];
      }
    }
  }

  /** The filter keeps rows with distinct keys distinct. */
  lemma {:induction false} MatchingDistinctIds(rows: seq<Row>, search: Option<string>)
    requires DistinctIds(rows)
    ensures DistinctIds(Matching(rows, search))
  {
    if rows != [] {
      assert rows == [rows[0]] + rows[1..];
      DistinctIdsCons(rows[0], rows[1..]);
      MatchingDistinctIds(rows[1..], search);
      var tail := Matching(rows[1..], search);
      if Listed(rows[0].file, search) {
        assert Matching(rows, search) == [rows[0]] + tail;
        DistinctIdsCons(rows[0], tail);
      } else {
        assert Matching(rows, search) == tail;
      }
    }
  }

  /** Inserting a row whose key is new keeps the keys distinct. */
  lemma {:induction false} InsertDistinctIds(x: Row, s: seq<Row>)
    requires IdFree(x.id, s) && DistinctIds(s)
    ensures DistinctIds(Insert(x, s))
  {
    if s == [] {
    } else if x.file.createdAt >= s[0].file.createdAt {
      DistinctIdsCons(x, s);
    } else {
      assert s == [s[0]] + s[1..];
      DistinctIdsCons(s[0], s[1..]);
      var t := Insert(x, s[1..]);
      InsertDistinctIds(x, s[1..]);
      forall y | y in t ensures y.id != s[0].id {
        assert y in multiset(t);
        assert y == x || y in multiset(s[1..]);
      }
      DistinctIdsCons(s[0], t);
    }
  }

  /** Sorting keeps the keys distinct. */
  lemma {:induction false} SortDistinctIds(s: seq<Row>)
    requires DistinctIds(s)
    ensures DistinctIds(SortNewestFirst(s))
  {
    if s != [] {
      assert s == [s[0]] + s[1..];
      DistinctIdsCons(s[0], s[1..]);
      var t := SortNewestFirst(s[1..]);
      SortDistinctIds(s[1..]);
      forall y | y in t ensures y.id != s[0].id {
        assert y in multiset(t);
      }
      InsertDistinctIds(s[0], t);
    }
  }

  /** Rows with distinct keys give a listing with distinct keys: every file is
      listed at most once. */
  lemma ListingDistinctIds(rows: seq<Row>, search: Option<string>)
    requires DistinctIds(rows)
    ensures DistinctIds(Listing(rows, search))
  {
    MatchingDistinctIds(rows, search);
    SortDistinctIds(Matching(rows, search));
  }

  /** Whatever is searched, a private file is never listed. */
  lemma ListingOnlyFree(rows: seq<Row>, search: Option<string>, x: Row)
    requires x in Listing(rows, search)
    ensures x.file.access == Free
  {
  }

  /** With a non-empty search value the listing holds exactly the free files whose
      name contains it, ignoring case. */
  lemma ListingSearch(rows: seq<Row>, q: string, x: Row)
    requires q != ""
    ensures x in Listing(rows, Some(q)) <==>
              x in rows && x.file.access == Free && IContains(x.file.name, q)
  {
  }

  /** An empty search value and no search value give the same listing: all free files. */
  lemma EmptySearchIsNoSearch(rows: seq<Row>)
    ensures Listing(rows, Some("")) == Listing(rows, None)
    ensures forall x :: x in Listing(rows, None) <==> x in rows && x.file.access == Free
  {
    MatchingIgnoresEmptySearch(rows);
  }

  lemma {:induction false} MatchingIgnoresEmptySearch(rows: seq<Row>)
    ensures Matching(rows, Some("")) == Matching(rows, None)
  {
    if rows != [] {
      MatchingIgnoresEmptySearch(rows[1..]);
    }
  }

  /** Django's page count: one page at least, otherwise enough pages of `PageSize`. */
  function PageCount(count: nat): (n: nat)
    ensures n >= 1
    ensures (n - 1) * PageSize <= count
    ensures count <= n * PageSize
    ensures count > 0 ==> (n - 1) * PageSize < count
  {
    if count == 0 then 1 else (count + PageSize - 1) / PageSize
  }

  function Min(a: int, b: int): int {
    if a <= b then a else b
  }

  /** Page `number` (counting from 1) of a listing; a number outside 1..PageCount
      is refused, as Django's paginator raises for it. */
  function Page<T>(s: seq<T>, number: int): (p: Option<seq<T>>)
    ensures p.Some? <==> 1 <= number <= PageCount(|s|)
    ensures p.Some? ==> |p.value| <= PageSize
    ensures p.Some? && number < PageCount(|s|) ==> |p.value| == PageSize
  {
    if 1 <= number <= PageCount(|s|) then
      Some(s[(number - 1) * PageSize .. Min(number * PageSize, |s|)])
    else None
  }

  /** The first page always exists and holds the first `PageSize` rows (all of them
      when there are fewer). */
  lemma FirstPage<T>(s: seq<T>)
    ensures Page(s, 1) == Some(s[..Min(PageSize, |s|)])
  {
  }

  /** The first page of the listing holds its ten newest files: every row on it
      is at least as new as every listed row that is not on it. */
  lemma FirstPageIsNewest(rows: seq<Row>, search: Option<string>, x: Row, i: nat)
    requires x in Page(Listing(rows, search), 1).value
    requires PageSize <= i < |Listing(rows, search)|
    ensures x.file.createdAt >= Listing(rows, search)[i].file.createdAt
  {
  }

  /** The pages from `from` up to the last, joined. */
  function PagesFrom<T>(s: seq<T>, from: nat): seq<T>
    requires from >= 1
    decreases PageCount(|s|) + 1 - from
  {
    if from > PageCount(|s|) then [] else Page(s, from).value + PagesFrom(s, from + 1)
  }

  /** Read one after another, the pages give back the whole listing, each row once. */
  lemma AllPages<T>(s: seq<T>)
    ensures PagesFrom(s, 1) == s
  {
    PagesFromIsSuffix(s, 1);
  }

  lemma {:induction false} PagesFromIsSuffix<T>(s: seq<T>, from: nat)
    requires 1 <= from <= PageCount(|s|) + 1
    ensures (from - 1) * PageSize <= |s| || from == PageCount(|s|) + 1
    ensures PagesFrom(s, from) == if (from - 1) * PageSize <= |s| then s[(from - 1) * PageSize..] else []
    decreases PageCount(|s|) + 1 - from
  {
    if from > PageCount(|s|) {
      assert |s| <= (from - 1) * PageSize;
      assert (from - 1) * PageSize <= |s| ==> s[(from - 1) * PageSize..] == [];
    } else {
      PagesFromIsSuffix(s, from + 1);
      var lo, hi := (from - 1) * PageSize, Min(from * PageSize, |s|);
      assert lo <= hi;
      if from < PageCount(|s|) {
        assert from * PageSize <= |s|;
        assert s[lo..] == s[lo..hi] + s[hi..];
      } else {
        assert hi == |s|;
        assert s[lo..] == s[lo..hi];
      }
    }
  }
}
