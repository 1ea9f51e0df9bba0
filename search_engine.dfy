/** `SearchEngine.search`: the hits of one index row, ranked by score,
    one page of them, and each joined with its document's stored fields.
    The two table reads are input maps, and a score is an integer (the
    decoding of stored doubles is not modelled). */
module SearchEngine {
  import opened Wrappers
  import opened Strings

  /** One cell of an index row: its column name and its score, `None` when
      the stored bytes do not decode. */
  datatype Column = Column(name: string, value: Option<int>)

  datatype Hit = Hit(url: string, score: int)

  datatype SearchResult = SearchResult(score: int, url: string, title: string, content: string)

  /** The titles shown when the document has none. */
  const NoTitle: string := "\U{65e0}\U{6807}\U{9898}"
  const NoContent: string := "\U{65e0}\U{5185}\U{5bb9}"

  /** An undecodable score counts as 0. */
  function ScoreOf(v: Option<int>): int
  {
    if v.Some? then v.value else 0
  }

  predicate IsHitColumn(c: Column)
  {
    StartsWith(c.name, "p:")
  }

  function HitOf(c: Column): Hit
    requires IsHitColumn(c)
  {
    Hit(c.name[2..], ScoreOf(c.value))
  }

  /** The hits of a row: its `p:` columns, in column order. */
  function Hits(row: seq<Column>): seq<Hit>
  {
    if row == [] then []
    else
      var c := row[|row| - 1];
      Hits(row[..|row| - 1]) + (if IsHitColumn(c) then [HitOf(c)] else [])
  }

  /** The hit-extraction loop. */
  method ExtractHits(row: seq<Column>) returns (hits: seq<Hit>)
    ensures hits == Hits(row)
  {
    hits := [];
    var i := 0;
    while i < |row|
      invariant 0 <= i <= |row| && hits == Hits(row[..i])
    {
      assert row[..i + 1][..i] == row[..i];
      var c := row[i];
      if StartsWith(c.name, "p:") {
        hits := hits + [Hit(c.name[2..], ScoreOf(c.value))];
      }
      i := i + 1;
    }
    assert row[..i] == row;
  }

  /** A hit comes from a `p:` column, named `p:` followed by its url, and
      every `p:` column gives one. */
  lemma {:induction false} HitsMember(row: seq<Column>, h: Hit)
    ensures h in Hits(row) <==> exists i :: 0 <= i < |row| && IsHitColumn(row[i]) && h == HitOf(row[i])
    decreases |row|
  {
    if row != [] {
      var init := row[..|row| - 1];
      HitsMember(init, h);
      if h in Hits(init) {
        var i :| 0 <= i < |init| && IsHitColumn(init[i]) && h == HitOf(init[i]);
        assert row[i] == init[i];
      }
      if exists i :: 0 <= i < |row| && IsHitColumn(row[i]) && h == HitOf(row[i]) {
        var i :| 0 <= i < |row| && IsHitColumn(row[i]) && h == HitOf(row[i]);
        if i < |init| {
          assert init[i] == row[i];
        }
      }
    }
  }

  function CountHitColumns(row: seq<Column>): nat
  {
    if row == [] then 0
    else CountHitColumns(row[..|row| - 1]) + (if IsHitColumn(row[|row| - 1]) then 1 else 0)
  }

  /** There are as many hits as `p:` columns. */
  lemma {:induction false} HitsCount(row: seq<Column>)
    ensures |Hits(row)| == CountHitColumns(row)
    decreases |row|
  {
    if row != [] {
      HitsCount(row[..|row| - 1]);
    }
  }

  // ---------------------------------------------------------------------
  // Ranking

  /** `x` placed after every leading hit that scores at least as high. */
  function Insert(sorted: seq<Hit>, x: Hit): seq<Hit>
  {
    if sorted == [] then [x]
    else if sorted[0].score >= x.score then [sorted[0]] + Insert(sorted[1..], x)
    else [x] + sorted
  }

  /** A stable sort by descending score (`sort(key=score, reverse=True)`,
      under which equal scores keep their order). */
  function SortDesc(hits: seq<Hit>): seq<Hit>
  {
    if hits == [] then [] else Insert(SortDesc(hits[..|hits| - 1]), hits[|hits| - 1])
  }

  predicate SortedDesc(hits: seq<Hit>)
  {
    forall i, j :: 0 <= i < j < |hits| ==> hits[i].score >= hits[j].score
  }

  /** The hits scoring `v`, in order. */
  function WithScore(hits: seq<Hit>, v: int): seq<Hit>
  {
    if hits == [] then []
    else (if hits[0].score == v then [hits[0]] else []) + WithScore(hits[1..], v)
  }

  lemma {:induction false} WithScoreAppend(a: seq<Hit>, b: seq<Hit>, v: int)
    ensures WithScore(a + b, v) == WithScore(a, v) + WithScore(b, v)
    decreases |a|
  {
    if a == [] {
      assert a + b == b;
    } else {
      var h := if a[0].score == v then [a[0]] else [];
      assert (a + b)[0] == a[0];
      assert (a + b)[1..] == a[1..] + b;
      assert WithScore(a + b, v) == h + WithScore(a[1..] + b, v);
      WithScoreAppend(a[1..], b, v);
      assert h + (WithScore(a[1..], v) + WithScore(b, v)) == (h + WithScore(a[1..], v)) + WithScore(b, v);
    }
  }

  lemma {:induction false} WithScoreNone(hits: seq<Hit>, v: int)
    requires forall i :: 0 <= i < |hits| ==> hits[i].score < v
    ensures WithScore(hits, v) == []
    decreases |hits|
  {
    if hits != [] {
      WithScoreNone(hits[1..], v);
    }
  }

  lemma {:induction false} InsertPerm(sorted: seq<Hit>, x: Hit)
    ensures multiset(Insert(sorted, x)) == multiset(sorted) + multiset{x}
    decreases |sorted|
  {
    if sorted != [] && sorted[0].score >= x.score {
      InsertPerm(sorted[1..], x);
      assert sorted == [sorted[0]] + sorted[1..];
    }
  }

  lemma {:induction false} InsertSorted(sorted: seq<Hit>, x: Hit)
    requires SortedDesc(sorted)
    ensures SortedDesc(Insert(sorted, x))
    decreases |sorted|
  {
    if sorted != [] && sorted[0].score >= x.score {
      InsertSorted(sorted[1..], x);
      InsertBelowHead(sorted, x);
      ConsSorted(sorted[0], Insert(sorted[1..], x));
    }
  }

  /** When `x` goes after the head, everything inserted behind it scores
      no more than the head. */
  lemma InsertBelowHead(sorted: seq<Hit>, x: Hit)
    requires SortedDesc(sorted) && sorted != [] && sorted[0].score >= x.score
    ensures forall k :: 0 <= k < |Insert(sorted[1..], x)| ==> sorted[0].score >= Insert(sorted[1..], x)[k].score
  {
    var rest := Insert(sorted[1..], x);
    InsertPerm(sorted[1..], x);
    forall k | 0 <= k < |rest| ensures sorted[0].score >= rest[k].score {
      assert rest[k] in multiset(sorted[1..]) + multiset{x};
      if rest[k] != x {
        assert rest[k] in sorted[1..];
      }
    }
  }

  lemma ConsSorted(h: Hit, rest: seq<Hit>)
    requires SortedDesc(rest)
    requires forall k :: 0 <= k < |rest| ==> h.score >= rest[k].score
    ensures SortedDesc([h] + rest)
  {
    var r := [h] + rest;
    assert forall k :: 1 <= k < |r| ==> r[k] == rest[k - 1];
  }

  /** Inserting `x` into sorted hits puts it after every hit of equal score. */
  lemma {:induction false} InsertStable(sorted: seq<Hit>, x: Hit, v: int)
    requires SortedDesc(sorted)
    ensures WithScore(Insert(sorted, x), v) == WithScore(sorted, v) + (if x.score == v then [x] else [])
    decreases |sorted|
  {
    if sorted == [] {
    } else if sorted[0].score >= x.score {
      InsertStable(sorted[1..], x, v);
      assert ([sorted[0]] + Insert(sorted[1..], x))[1..] == Insert(sorted[1..], x);
    } else {
      assert ([x] + sorted)[1..] == sorted;
      if x.score == v {
        WithScoreNone(sorted, v);
      }
    }
  }

  /** The ranking is ordered by non-increasing score, is a permutation of
      the hits, and keeps the hits of each score in their original order. */
  lemma {:induction false} SortDescSpec(hits: seq<Hit>)
    ensures SortedDesc(SortDesc(hits))
    ensures multiset(SortDesc(hits)) == multiset(hits)
    ensures forall v :: WithScore(SortDesc(hits), v) == WithScore(hits, v)
    decreases |hits|
  {
    if hits != [] {
      var init := hits[..|hits| - 1];
      var x := hits[|hits| - 1];
      assert SortDesc(hits) == Insert(SortDesc(init), x);
      assert hits == init + [x];
      SortDescSpec(init);
      InsertSorted(SortDesc(init), x);
      InsertPerm(SortDesc(init), x);
      SortStableStep(init, x);
    }
  }

  /** The stability step of `SortDescSpec`. */
  lemma SortStableStep(init: seq<Hit>, x: Hit)
    requires SortedDesc(SortDesc(init))
    requires forall v :: WithScore(SortDesc(init), v) == WithScore(init, v)
    ensures forall v :: WithScore(Insert(SortDesc(init), x), v) == WithScore(init + [x], v)
  {
    forall v ensures WithScore(Insert(SortDesc(init), x), v) == WithScore(init + [x], v) {
      InsertStable(SortDesc(init), x, v);
      WithScoreAppend(init, [x], v);
    }
  }

  // ---------------------------------------------------------------------
  // Paging and results

  function Min(a: int, b: int): int
  {
    if a < b then a else b
  }

  /** The hits of page `page` (counted from 1), `pageSize` per page. */
  function PageOf(hits: seq<Hit>, page: int, pageSize: nat): seq<Hit>
    requires page >= 1
  {
    var start := (page - 1) * pageSize;
    if start >= |hits| then [] else hits[start..Min(start + pageSize, |hits|)]
  }

  /** A page starting past the end is empty; any other is the window of at
      most `pageSize` hits from `(page - 1) * pageSize`. */
  lemma PageWindow(hits: seq<Hit>, page: int, pageSize: nat)
    requires page >= 1
    ensures var start := (page - 1) * pageSize;
      (start >= |hits| ==> PageOf(hits, page, pageSize) == []) &&
      (start < |hits| ==>
        |PageOf(hits, page, pageSize)| == Min(pageSize, |hits| - start) &&
        forall i :: 0 <= i < |PageOf(hits, page, pageSize)| ==> PageOf(hits, page, pageSize)[i] == hits[start + i])
  {
  }

  /** Every hit is on exactly the page its rank says, at the position its
      rank says. */
  lemma HitOnItsPage(hits: seq<Hit>, pageSize: nat, k: nat)
    requires pageSize >= 1 && k < |hits|
    ensures var p := PageOf(hits, k / pageSize + 1, pageSize);
      k % pageSize < |p| && p[k % pageSize] == hits[k]
  {
    var q, r := k / pageSize, k % pageSize;
    var start := q * pageSize;
    assert k == start + r && r < pageSize;
    assert (k / pageSize + 1 - 1) * pageSize == start;
    PageAt(hits, start, pageSize, r);
  }

  /** The `r`-th hit of the window of `pageSize` hits from `start`. */
  lemma PageAt(hits: seq<Hit>, start: nat, pageSize: nat, r: nat)
    requires r < pageSize && start + r < |hits|
    ensures var p := hits[start..Min(start + pageSize, |hits|)];
      r < |p| && p[r] == hits[start + r]
  {
  }

  /** The value of column `col`, or `default` when it is absent or empty. */
  function Field(row: map<string, string>, col: string, default: string): string
  {
    if col in row && row[col] != "" then row[col] else default
  }

  /** The result shown for one hit. */
  function ResultFor(hit: Hit, files: map<string, map<string, string>>): SearchResult
  {
    var row := if hit.url in files then files[hit.url] else map[];
    SearchResult(hit.score, Field(row, "info:url", ""), Field(row, "info:title", NoTitle),
                 Field(row, "info:content", NoContent))
  }

  /** A hit whose document row is missing gets the default fields. */
  lemma MissingDocumentDefaults(hit: Hit, files: map<string, map<string, string>>)
    requires hit.url !in files
    ensures ResultFor(hit, files) == SearchResult(hit.score, "", NoTitle, NoContent)
  {
  }

  /** The result-assembly loop: one result per page hit, in page order. */
  method Assemble(pageHits: seq<Hit>, files: map<string, map<string, string>>) returns (results: seq<SearchResult>)
    ensures |results| == |pageHits|
    ensures forall i :: 0 <= i < |pageHits| ==> results[i] == ResultFor(pageHits[i], files)
  {
    results := [];
    var i := 0;
    while i < |pageHits|
      invariant 0 <= i <= |pageHits| && |results| == i
      invariant forall k :: 0 <= k < i ==> results[k] == ResultFor(pageHits[k], files)
    {
      var hit := pageHits[i];
      var fileRow := if hit.url in files then files[hit.url] else map[];
      var title := if "info:title" in fileRow && fileRow["info:title"] != "" then fileRow["info:title"] else NoTitle;
      var content := if "info:content" in fileRow && fileRow["info:content"] != "" then fileRow["info:content"] else NoContent;
      var url := if "info:url" in fileRow && fileRow["info:url"] != "" then fileRow["info:url"] else "";
      results := results + [SearchResult(hit.score, url, title, content)];
      i := i + 1;
    }
  }

  function RowOf(index: map<string, seq<Column>>, keyword: string): seq<Column>
  {
    if keyword in index then index[keyword] else []
  }

  function Results(pageHits: seq<Hit>, files: map<string, map<string, string>>): seq<SearchResult>
  {
    seq(|pageHits|, i requires 0 <= i < |pageHits| => ResultFor(pageHits[i], files))
  }

  /** What one search returns: the page's results and the number of hits. */
  function SearchSpec(index: map<string, seq<Column>>, files: map<string, map<string, string>>,
                      keyword: string, page: int, pageSize: nat): (seq<SearchResult>, nat)
    requires page >= 1
  {
    var row := RowOf(index, keyword);
    if row == [] then ([], 0)
    else
      var hits := SortDesc(Hits(row));
      (Results(PageOf(hits, page, pageSize), files), |hits|)
  }

  /** `search(keyword, page, page_size)`. */
  method Search(index: map<string, seq<Column>>, files: map<string, map<string, string>>,
                keyword: string, page: int, pageSize: nat)
    returns (results: seq<SearchResult>, total: nat)
    requires page >= 1
    ensures (results, total) == SearchSpec(index, files, keyword, page, pageSize)
  {
    var row := if keyword in index then index[keyword] else [];
    if row == [] {
      return [], 0;
    }
    var hits := ExtractHits(row);
    hits := SortDesc(hits);
    total := |hits|;
    var start := (page - 1) * pageSize;
    var end := start + pageSize;
    if start >= total {
      assert PageOf(hits, page, pageSize) == [];
      assert Results([], files) == [];
      return [], total;
    }
    var pageHits := hits[start..if end < total then end else total];
    results := Assemble(pageHits, files);
    assert results == Results(pageHits, files);
  }

  /** A keyword with no (or an empty) index row finds nothing. */
  lemma NoRowNoResults(index: map<string, seq<Column>>, files: map<string, map<string, string>>,
                       keyword: string, page: int, pageSize: nat)
    requires page >= 1
    requires keyword !in index || index[keyword] == []
    ensures SearchSpec(index, files, keyword, page, pageSize) == ([], 0)
  {
  }

  /** The total is the number of `p:` columns of the row, whatever the page. */
  lemma TotalIsHitCount(index: map<string, seq<Column>>, files: map<string, map<string, string>>,
                        keyword: string, page: int, pageSize: nat)
    requires page >= 1
    ensures SearchSpec(index, files, keyword, page, pageSize).1 == CountHitColumns(RowOf(index, keyword))
  {
    var row := RowOf(index, keyword);
    HitsCount(row);
    SortDescSpec(Hits(row));
    assert |SortDesc(Hits(row))| == |multiset(SortDesc(Hits(row)))|;
  }

  /** `results` are the results for the `pageSize` ranked hits from
      `start` on, or none when `start` is past the end. */
  predicate PageResults(results: seq<SearchResult>, ranked: seq<Hit>, start: int, pageSize: nat,
                        files: map<string, map<string, string>>)
  {
    (start >= |ranked| ==> results == []) &&
    (0 <= start < |ranked| ==>
      |results| == Min(pageSize, |ranked| - start) &&
      forall i :: 0 <= i < |results| ==> results[i] == ResultFor(ranked[start + i], files))
  }

  /** The results of a page are, in rank order, the ranked hits from
      `(page - 1) * pageSize` on, at most `pageSize` of them. */
  lemma SearchPage(index: map<string, seq<Column>>, files: map<string, map<string, string>>,
                   keyword: string, page: int, pageSize: nat)
    requires page >= 1
    ensures var (results, total) := SearchSpec(index, files, keyword, page, pageSize);
      var ranked := SortDesc(Hits(RowOf(index, keyword)));
      total == |ranked| && PageResults(results, ranked, (page - 1) * pageSize, pageSize, files)
  {
    var row := RowOf(index, keyword);
    if row != [] {
      PageWindow(SortDesc(Hits(row)), page, pageSize);
    }
  }

  /** The results of a page are ordered by non-increasing score. */
  lemma SearchRanked(index: map<string, seq<Column>>, files: map<string, map<string, string>>,
                     keyword: string, page: int, pageSize: nat)
    requires page >= 1
    ensures var results := SearchSpec(index, files, keyword, page, pageSize).0;
      forall i, j :: 0 <= i < j < |results| ==> results[i].score >= results[j].score
  {
    var row := RowOf(index, keyword);
    if row != [] {
      var ranked := SortDesc(Hits(row));
      SortDescSpec(Hits(row));
      PageSorted(ranked, page, pageSize);
      ResultsRanked(PageOf(ranked, page, pageSize), files);
    }
  }

  lemma PageSorted(hits: seq<Hit>, page: int, pageSize: nat)
    requires page >= 1 && SortedDesc(hits)
    ensures SortedDesc(PageOf(hits, page, pageSize))
  {
    var start := (page - 1) * pageSize;
    if start < |hits| {
      var ph := hits[start..Min(start + pageSize, |hits|)];
      assert forall i :: 0 <= i < |ph| ==> ph[i] == hits[start + i];
    }
  }

  lemma ResultsRanked(pageHits: seq<Hit>, files: map<string, map<string, string>>)
    requires SortedDesc(pageHits)
    ensures var results := Results(pageHits, files);
      forall i, j :: 0 <= i < j < |results| ==> results[i].score >= results[j].score
  {
  }
}
