/**
 * ensure_unique_and_ordered: the article table becomes the ordered corpus.
 * Rows without a URL are dropped, duplicate URLs keep their first row (before
 * sorting), and the rows are sorted by URL.
 */
module Corpus {
  import opened Wrappers
  import opened Text

  /** One row of the article table read from the CSV file. */
  datatype Row = Row(url: Cell, title: Cell, excerpt: Cell, keywords: Cell)

  /**
   * The table: whether it has a `url` column and a `title` column at all, and
   * its rows in file order. When a column is missing, its cell in every row is
   * `Absent`, which is what `row.get` then falls back on.
   */
  datatype Table = Table(hasUrlColumn: bool, hasTitleColumn: bool, rows: seq<Row>)

  /** Every cell of a missing column is `Absent`, as reading any CSV file gives. */
  predicate WellFormed(t: Table)
  {
    && (!t.hasUrlColumn ==> forall r :: r in t.rows ==> r.url == Absent)
    && (!t.hasTitleColumn ==> forall r :: r in t.rows ==> r.title == Absent)
  }

  /** A row that has a URL. */
  datatype Article = Article(url: string, title: Cell, excerpt: Cell, keywords: Cell)

  /** The ValueError raised when the table has no `url` column. */
  datatype SchemaError = MissingUrlColumn

  /** The row an article was read from. */
  function RowOf(a: Article): Row
  {
    Row(Str(a.url), a.title, a.excerpt, a.keywords)
  }

  // ---------------------------------------------------------------------------
  // Python's ordering of strings: lexicographic by code point.

  predicate Less(a: string, b: string)
  {
    if a == [] then b != []
    else if b == [] then false
    else if a[0] != b[0] then a[0] < b[0]
    else Less(a[1..], b[1..])
  }

  lemma {:induction false} LessIrreflexive(a: string)
    ensures !Less(a, a)
  {
    if a != [] {
      LessIrreflexive(a[1..]);
    }
  }

  lemma {:induction false} LessTransitive(a: string, b: string, c: string)
    requires Less(a, b) && Less(b, c)
    ensures Less(a, c)
  {
    if a != [] && b != [] && c != [] && a[0] == b[0] == c[0] {
      LessTransitive(a[1..], b[1..], c[1..]);
    }
  }

  lemma {:induction false} LessAsymmetric(a: string, b: string)
    ensures !(Less(a, b) && Less(b, a))
  {
    if a != [] && b != [] && a[0] == b[0] {
      LessAsymmetric(a[1..], b[1..]);
    }
  }

  lemma {:induction false} LessTotal(a: string, b: string)
    requires a != b
    ensures Less(a, b) != Less(b, a)
  {
    if a != [] && b != [] && a[0] == b[0] {
      assert a == [a[0]] + a[1..] && b == [b[0]] + b[1..];
      LessTotal(a[1..], b[1..]);
    }
  }

  // ---------------------------------------------------------------------------
  // Predicates on sequences of articles.

  function UrlSet(arts: seq<Article>): set<string>
  {
    set a | a in arts :: a.url
  }

  predicate DistinctUrls(arts: seq<Article>)
  {
    forall i, j :: 0 <= i < j < |arts| ==> arts[i].url != arts[j].url
  }

  predicate StrictlySorted(arts: seq<Article>)
  {
    forall i, j :: 0 <= i < j < |arts| ==> Less(arts[i].url, arts[j].url)
  }

  /** A strictly sorted corpus never repeats a URL. */
  lemma {:induction false} SortedHasDistinctUrls(arts: seq<Article>)
    requires StrictlySorted(arts)
    ensures DistinctUrls(arts)
  {
    forall i, j | 0 <= i < j < |arts| ensures arts[i].url != arts[j].url {
      LessIrreflexive(arts[i].url);
    }
  }

  /** `a` occurs in `arts`, and no earlier element carries its URL. */
  ghost predicate FirstOf(arts: seq<Article>, a: Article)
  {
    exists i :: 0 <= i < |arts| && arts[i] == a && forall j :: 0 <= j < i ==> arts[j].url != a.url
  }

  /** `a` was read from a row of `rows`, and no earlier row carries its URL. */
  ghost predicate FirstRowFor(rows: seq<Row>, a: Article)
  {
    exists i :: 0 <= i < |rows| && rows[i] == RowOf(a) && forall j :: 0 <= j < i ==> rows[j].url != Str(a.url)
  }

  /** The rows that have a URL carry pairwise different URLs. */
  predicate DistinctPresentUrls(rows: seq<Row>)
  {
    forall i, j :: 0 <= i < j < |rows| && rows[i].url.Str? ==> rows[i].url != rows[j].url
  }

  // ---------------------------------------------------------------------------
  // The three steps.

  /** `df.dropna(subset=["url"])`: keeps the rows whose URL is a string, in order. */
  function DropMissing(rows: seq<Row>): seq<Article>
  {
    if rows == [] then []
    else
      var last := rows[|rows| - 1];
      var kept := DropMissing(rows[..|rows| - 1]);
      if last.url.Str? then kept + [Article(last.url.s, last.title, last.excerpt, last.keywords)]
      else kept
  }

  /** `drop_duplicates(subset=["url"])` with pandas' default: keep the first row per URL. */
  function KeepFirst(arts: seq<Article>): seq<Article>
  {
    if arts == [] then []
    else
      var init, last := arts[..|arts| - 1], arts[|arts| - 1];
      if last.url in UrlSet(init) then KeepFirst(init) else KeepFirst(init) + [last]
  }

  /** Inserts `a` into a sequence sorted by URL, before the first larger URL. */
  function Insert(a: Article, s: seq<Article>): seq<Article>
  {
    if s == [] || Less(a.url, s[0].url) then [a] + s
    else [s[0]] + Insert(a, s[1..])
  }

  /** `sort_values("url")`. The URLs are distinct by then, so any sort gives this order. */
  function SortByUrl(arts: seq<Article>): seq<Article>
  {
    if arts == [] then [] else Insert(arts[0], SortByUrl(arts[1..]))
  }

  /** ensure_unique_and_ordered. */
  function Normalize(t: Table): Result<seq<Article>, SchemaError>
  {
    if !t.hasUrlColumn then Failure(MissingUrlColumn)
    else Success(SortByUrl(KeepFirst(DropMissing(t.rows))))
  }

  // ---------------------------------------------------------------------------
  // Lemmas.

  /**
   * ensure_unique_and_ordered fails exactly when the table has no `url`
   * column; otherwise the corpus is sorted strictly by URL (so its URLs are
   * distinct), every article is the first row carrying its URL, and every URL
   * of the table appears.
   */
  lemma {:induction false} NormalizeSpec(t: Table)
    ensures Normalize(t).Failure? <==> !t.hasUrlColumn
    ensures Normalize(t).Success? ==> StrictlySorted(Normalize(t).value)
    ensures Normalize(t).Success? ==> forall a :: a in Normalize(t).value ==> FirstRowFor(t.rows, a)
    ensures Normalize(t).Success? ==> forall i :: 0 <= i < |t.rows| && t.rows[i].url.Str? ==>
      t.rows[i].url.s in UrlSet(Normalize(t).value)
  {
    if t.hasUrlColumn {
      var present := DropMissing(t.rows);
      var unique := KeepFirst(present);
      var sorted := SortByUrl(unique);
      DropMissingSpec(t.rows);
      KeepFirstSpec(present);
      SortByUrlSpec(unique);
      FirstRowsOfPresent(t.rows);
      forall a | a in sorted ensures FirstRowFor(t.rows, a) {
        assert a in multiset(sorted);
      }
      forall i | 0 <= i < |t.rows| && t.rows[i].url.Str? ensures t.rows[i].url.s in UrlSet(sorted) {
        var row := t.rows[i];
        assert Article(row.url.s, row.title, row.excerpt, row.keywords) in present;
      }
    }
  }

  /** The articles kept by dropna are exactly the rows that have a URL. */
  lemma {:induction false} DropMissingSpec(rows: seq<Row>)
    ensures forall a :: a in DropMissing(rows) ==> RowOf(a) in rows
    ensures forall i :: 0 <= i < |rows| && rows[i].url.Str? ==>
      Article(rows[i].url.s, rows[i].title, rows[i].excerpt, rows[i].keywords) in DropMissing(rows)
  {
    if rows != [] {
      var init := rows[..|rows| - 1];
      DropMissingSpec(init);
      assert rows == init + [rows[|rows| - 1]];
    }
  }

  /** A first occurrence among the rows that have a URL is the first row carrying that URL. */
  lemma {:induction false} FirstRowsOfPresent(rows: seq<Row>)
    ensures forall a :: FirstOf(DropMissing(rows), a) ==> FirstRowFor(rows, a)
  {
    if rows != [] {
      var init, last := rows[..|rows| - 1], rows[|rows| - 1];
      var kept := DropMissing(init);
      FirstRowsOfPresent(init);
      DropMissingSpec(init);
      forall a | FirstOf(DropMissing(rows), a) ensures FirstRowFor(rows, a) {
        var d := DropMissing(rows);
        var i :| 0 <= i < |d| && d[i] == a && forall j :: 0 <= j < i ==> d[j].url != a.url;
        if i < |kept| {
          assert FirstOf(kept, a) by {
            assert forall j :: 0 <= j <= i ==> kept[j] == d[j];
          }
          var p :| 0 <= p < |init| && init[p] == RowOf(a) && forall j :: 0 <= j < p ==> init[j].url != Str(a.url);
          assert rows[p] == RowOf(a);
          assert forall j :: 0 <= j < p ==> rows[j] == init[j];
        } else {
          assert last.url.Str? && a == Article(last.url.s, last.title, last.excerpt, last.keywords);
          assert rows[|rows| - 1] == RowOf(a);
          forall j | 0 <= j < |rows| - 1 ensures rows[j].url != Str(a.url) {
            if rows[j].url.Str? {
              assert init[j] == rows[j];
              var b := Article(rows[j].url.s, rows[j].title, rows[j].excerpt, rows[j].keywords);
              assert b in kept;
              var q :| 0 <= q < |kept| && kept[q] == b;
              assert d[q] == b;
            }
          }
        }
      }
    }
  }

  lemma {:induction false} UrlSetAppend(x: seq<Article>, a: Article)
    ensures UrlSet(x + [a]) == UrlSet(x) + {a.url}
  {
    assert forall b :: b in x + [a] <==> b in x || b == a;
  }

  /** De-duplication keeps every URL, leaves no URL twice, and keeps only first occurrences. */
  lemma {:induction false} KeepFirstSpec(arts: seq<Article>)
    ensures UrlSet(KeepFirst(arts)) == UrlSet(arts)
    ensures DistinctUrls(KeepFirst(arts))
    ensures forall a :: a in KeepFirst(arts) ==> FirstOf(arts, a)
  {
    KeepFirstUrls(arts);
    KeepFirstDistinct(arts);
    KeepFirstKeepsFirst(arts);
  }

  lemma {:induction false} KeepFirstUrls(arts: seq<Article>)
    ensures UrlSet(KeepFirst(arts)) == UrlSet(arts)
  {
    if arts != [] {
      var init, last := arts[..|arts| - 1], arts[|arts| - 1];
      KeepFirstUrls(init);
      assert arts == init + [last];
      UrlSetAppend(init, last);
      if last.url !in UrlSet(init) {
        UrlSetAppend(KeepFirst(init), last);
      }
    }
  }

  lemma {:induction false} KeepFirstDistinct(arts: seq<Article>)
    ensures DistinctUrls(KeepFirst(arts))
  {
    if arts != [] {
      var init, last := arts[..|arts| - 1], arts[|arts| - 1];
      var kept := KeepFirst(init);
      KeepFirstDistinct(init);
      if last.url !in UrlSet(init) {
        KeepFirstUrls(init);
        var r := kept + [last];
        forall i, j | 0 <= i < j < |r| ensures r[i].url != r[j].url {
          if j == |r| - 1 {
            assert r[i] in kept;
          }
        }
      }
    }
  }

  lemma {:induction false} KeepFirstKeepsFirst(arts: seq<Article>)
    ensures forall a :: a in KeepFirst(arts) ==> FirstOf(arts, a)
  {
    if arts != [] {
      var init, last := arts[..|arts| - 1], arts[|arts| - 1];
      var kept := KeepFirst(init);
      KeepFirstKeepsFirst(init);
      forall a | a in kept ensures FirstOf(arts, a) {
        var i :| 0 <= i < |init| && init[i] == a && forall j :: 0 <= j < i ==> init[j].url != a.url;
        assert arts[i] == a;
      }
      if last.url !in UrlSet(init) {
        forall j | 0 <= j < |arts| - 1 ensures arts[j].url != last.url {
          assert arts[j] in init;
        }
        assert FirstOf(arts, last);
      }
    }
  }

  /** On a sequence whose URLs are already distinct, de-duplication changes nothing. */
  lemma {:induction false} KeepFirstOfDistinct(arts: seq<Article>)
    requires DistinctUrls(arts)
    ensures KeepFirst(arts) == arts
  {
    if arts != [] {
      var init, last := arts[..|arts| - 1], arts[|arts| - 1];
      assert DistinctUrls(init);
      KeepFirstOfDistinct(init);
      assert arts == init + [last];
    }
  }

  /** Insertion adds exactly one article. */
  lemma {:induction false} InsertContents(a: Article, s: seq<Article>)
    ensures multiset(Insert(a, s)) == multiset(s) + multiset{a}
  {
    if s != [] && !Less(a.url, s[0].url) {
      InsertContents(a, s[1..]);
      assert s == [s[0]] + s[1..];
    }
  }

  /** Two sequences with the same elements carry the same URLs. */
  lemma {:induction false} SameElementsSameUrls(x: seq<Article>, y: seq<Article>)
    requires multiset(x) == multiset(y)
    ensures UrlSet(x) == UrlSet(y)
  {
    forall u | u in UrlSet(x) ensures u in UrlSet(y) {
      var b :| b in x && b.url == u;
      assert b in multiset(y);
    }
    forall u | u in UrlSet(y) ensures u in UrlSet(x) {
      var b :| b in y && b.url == u;
      assert b in multiset(x);
    }
  }

  /** Inserting an article with a new URL into a sorted sequence keeps it sorted. */
  lemma {:induction false} InsertSorted(a: Article, s: seq<Article>)
    requires StrictlySorted(s) && a.url !in UrlSet(s)
    ensures StrictlySorted(Insert(a, s))
  {
    var r := Insert(a, s);
    if s == [] {
    } else if Less(a.url, s[0].url) {
      forall j | 0 < j < |r| ensures Less(a.url, r[j].url) {
        if j > 1 { LessTransitive(a.url, s[0].url, r[j].url); }
      }
    } else {
      var rest := Insert(a, s[1..]);
      assert s[0] in s;
      LessTotal(a.url, s[0].url);
      forall b | b in s[1..] ensures b.url != a.url {
        assert b in s;
      }
      InsertSorted(a, s[1..]);
      InsertContents(a, s[1..]);
      forall j | 0 < j < |r| ensures Less(s[0].url, r[j].url) {
        assert r[j] in multiset(rest);
        if r[j] != a {
          assert r[j] in multiset(s[1..]);
          var k :| 0 <= k < |s[1..]| && s[1..][k] == r[j];
          assert s[k + 1] == r[j];
        }
      }
    }
  }

  /** Sorting permutes the articles and, when their URLs are distinct, orders them strictly. */
  lemma {:induction false} SortByUrlSpec(arts: seq<Article>)
    ensures multiset(SortByUrl(arts)) == multiset(arts)
    ensures UrlSet(SortByUrl(arts)) == UrlSet(arts)
    ensures DistinctUrls(arts) ==> StrictlySorted(SortByUrl(arts))
  {
    SortByUrlPermutes(arts);
    SameElementsSameUrls(SortByUrl(arts), arts);
    if DistinctUrls(arts) {
      SortByUrlSorted(arts);
    }
  }

  lemma {:induction false} SortByUrlPermutes(arts: seq<Article>)
    ensures multiset(SortByUrl(arts)) == multiset(arts)
  {
    if arts != [] {
      SortByUrlPermutes(arts[1..]);
      InsertContents(arts[0], SortByUrl(arts[1..]));
      assert arts == [arts[0]] + arts[1..];
    }
  }

  lemma {:induction false} SortByUrlSorted(arts: seq<Article>)
    requires DistinctUrls(arts)
    ensures StrictlySorted(SortByUrl(arts))
  {
    if arts != [] {
      var rest := SortByUrl(arts[1..]);
      assert DistinctUrls(arts[1..]);
      SortByUrlSorted(arts[1..]);
      SortByUrlPermutes(arts[1..]);
      forall b | b in rest ensures b.url != arts[0].url {
        assert b in multiset(arts[1..]);
        var k :| 0 <= k < |arts[1..]| && arts[1..][k] == b;
        assert arts[k + 1] == b;
      }
      InsertSorted(arts[0], rest);
    }
  }

  // ---------------------------------------------------------------------------
  // Independence from the order in which the rows arrive.

  /** An article occurs among the rows that have a URL as often as its row occurs in the table. */
  lemma {:induction false} DropMissingCount(rows: seq<Row>, a: Article)
    ensures multiset(DropMissing(rows))[a] == multiset(rows)[RowOf(a)]
  {
    if rows != [] {
      var init, last := rows[..|rows| - 1], rows[|rows| - 1];
      DropMissingCount(init, a);
      assert rows == init + [last];
      assert last.url.Str? ==>
        (Article(last.url.s, last.title, last.excerpt, last.keywords) == a <==> last == RowOf(a));
    }
  }

  /** Rows with pairwise different URLs give articles with pairwise different URLs. */
  lemma {:induction false} DropMissingDistinct(rows: seq<Row>)
    requires DistinctPresentUrls(rows)
    ensures DistinctUrls(DropMissing(rows))
  {
    if rows != [] {
      var init, last := rows[..|rows| - 1], rows[|rows| - 1];
      var kept := DropMissing(init);
      DropMissingDistinct(init);
      DropMissingSpec(init);
      if last.url.Str? {
        forall b | b in kept ensures b.url != last.url.s {
          var k :| 0 <= k < |init| && init[k] == RowOf(b);
          assert rows[k] == RowOf(b);
        }
      }
    }
  }

  /** With distinct URLs, no article occurs twice. */
  lemma {:induction false} DistinctCountAtMostOne(x: seq<Article>, e: Article)
    requires DistinctUrls(x)
    ensures multiset(x)[e] <= 1
  {
    if x != [] {
      assert x == [x[0]] + x[1..];
      assert DistinctUrls(x[1..]);
      DistinctCountAtMostOne(x[1..], e);
      if x[0] == e {
        forall k | 0 <= k < |x[1..]| ensures x[1..][k] != e {
          assert x[k + 1] == x[1..][k];
        }
      }
    }
  }

  /** Distinct URLs are a property of the multiset of articles, not of their order. */
  lemma {:induction false} DistinctUrlsOfPermutation(x: seq<Article>, y: seq<Article>)
    requires multiset(x) == multiset(y) && DistinctUrls(x)
    ensures DistinctUrls(y)
  {
    forall i, j | 0 <= i < j < |y| ensures y[i].url != y[j].url {
      assert y[i] in multiset(x) && y[j] in multiset(x);
      var p :| 0 <= p < |x| && x[p] == y[i];
      var q :| 0 <= q < |x| && x[q] == y[j];
      if y[i] == y[j] {
        assert y == y[..j] + [y[j]] + y[j + 1..];
        assert y[i] in y[..j];
        assert multiset(y)[y[i]] >= 2;
        DistinctCountAtMostOne(x, y[i]);
      }
    }
  }

  /** Two non-empty strictly sorted sequences with the same elements start alike. */
  lemma {:induction false} SortedSameHead(x: seq<Article>, y: seq<Article>)
    requires StrictlySorted(x) && StrictlySorted(y) && multiset(x) == multiset(y)
    requires x != [] && y != []
    ensures x[0] == y[0]
  {
    assert x[0] in multiset(y) && y[0] in multiset(x);
    var j :| 0 <= j < |y| && y[j] == x[0];
    var i :| 0 <= i < |x| && x[i] == y[0];
    assert x[0] == y[0] || Less(x[0].url, y[0].url) by {
      if i > 0 {
        assert Less(x[0].url, x[i].url);
      }
    }
    assert x[0] == y[0] || Less(y[0].url, x[0].url) by {
      if j > 0 {
        assert Less(y[0].url, y[j].url);
      }
    }
    LessAsymmetric(x[0].url, y[0].url);
  }

  /** Two strictly sorted sequences with the same elements are equal. */
  lemma {:induction false} SortedUnique(x: seq<Article>, y: seq<Article>)
    requires StrictlySorted(x) && StrictlySorted(y) && multiset(x) == multiset(y)
    ensures x == y
  {
    assert |x| == |multiset(x)| == |y|;
    if x != [] {
      SortedSameHead(x, y);
      assert x == [x[0]] + x[1..] && y == [y[0]] + y[1..];
      assert multiset(x[1..]) == multiset(x) - multiset{x[0]};
      assert multiset(y[1..]) == multiset(y) - multiset{y[0]};
      SortedUnique(x[1..], y[1..]);
    }
  }

  /**
   * When the rows that have a URL carry distinct URLs, ensure_unique_and_ordered
   * gives the same corpus for any order of the same rows.
   */
  lemma {:induction false} NormalizeIgnoresRowOrder(t1: Table, t2: Table)
    requires t1.hasUrlColumn == t2.hasUrlColumn
    requires multiset(t1.rows) == multiset(t2.rows)
    requires DistinctPresentUrls(t1.rows)
    ensures Normalize(t1) == Normalize(t2)
  {
    if t1.hasUrlColumn {
      var d1, d2 := DropMissing(t1.rows), DropMissing(t2.rows);
      forall a ensures multiset(d1)[a] == multiset(d2)[a] {
        DropMissingCount(t1.rows, a);
        DropMissingCount(t2.rows, a);
      }
      assert multiset(d1) == multiset(d2);
      DropMissingDistinct(t1.rows);
      DistinctUrlsOfPermutation(d1, d2);
      KeepFirstOfDistinct(d1);
      KeepFirstOfDistinct(d2);
      SortByUrlSpec(d1);
      SortByUrlSpec(d2);
      SortedUnique(SortByUrl(d1), SortByUrl(d2));
    }
  }
}
