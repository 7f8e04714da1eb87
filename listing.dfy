/** A council's list of elections (scraper.py:64-86): each listing row becomes an
    election whose page address is built from the list page's address and the
    row's link, and whose wards are read from that election's page. */
module Listing {
  import opened Common
  import opened Text
  import opened Html
  import opened Wards
  import opened Normalize

  /** Number of slashes in `s`. */
  function Slashes(s: string): nat
  {
    if s == [] then 0 else (if s[0] == '/' then 1 else 0) + Slashes(s[1..])
  }

  lemma {:induction false} SlashesAppend(a: string, b: string)
    ensures Slashes(a + b) == Slashes(a) + Slashes(b)
  {
    if a != [] {
      assert (a + b)[0] == a[0];
      assert (a + b)[1..] == a[1..] + b;
      SlashesAppend(a[1..], b);
    } else {
      assert a + b == b;
    }
  }

  /** The index of the last slash of `s`, if any. */
  function LastSlash(s: string): (r: Option<nat>)
    ensures r.Some? ==> r.value < |s| && s[r.value] == '/' && Slashes(s[r.value + 1..]) == 0
    ensures r.None? ==> Slashes(s) == 0
  {
    if s == [] then None
    else
      var front := s[..|s| - 1];
      SlashesAppend(front, [s[|s| - 1]]);
      assert s == front + [s[|s| - 1]];
      if s[|s| - 1] == '/' then
        assert s[|s|..] == [];
        Some(|s| - 1)
      else
        var r := LastSlash(front);
        if r.Some? then
          assert s[r.value + 1..] == front[r.value + 1..] + [s[|s| - 1]];
          SlashesAppend(front[r.value + 1..], [s[|s| - 1]]);
          r
        else r
  }

  /** `url.rsplit('/', 2)[0]` (scraper.py:64): `url` up to its second slash from
      the end, or up to its only slash, or all of it when it has none. */
  function UrlBase(url: string): string
  {
    match LastSlash(url)
    case None => url
    case Some(i) =>
      match LastSlash(url[..i])
      case None => url[..i]
      case Some(j) => url[..j]
  }

  /** Cutting `s` at one of its slashes. */
  lemma SlashesAround(s: string, i: nat)
    requires i < |s| && s[i] == '/'
    ensures Slashes(s[i..]) == 1 + Slashes(s[i + 1..])
    ensures Slashes(s) == Slashes(s[..i]) + Slashes(s[i..])
  {
    assert s[i..] == ['/'] + s[i + 1..];
    SlashesAppend(['/'], s[i + 1..]);
    assert s == s[..i] + s[i..];
    SlashesAppend(s[..i], s[i..]);
  }

  /** `url` cut at `n` keeps a beginning of `url` that stops just before a slash
      (or at its end), with `k` slashes after the cut. */
  predicate CutBefore(url: string, n: int, k: nat)
  {
    && 0 <= n <= |url| && (n < |url| ==> url[n] == '/') && Slashes(url[n..]) == k
  }

  /** Cutting at the last slash, when no slash comes before it. */
  lemma CutAtOnlySlash(url: string, i: nat)
    requires i < |url| && url[i] == '/' && Slashes(url[i + 1..]) == 0 && Slashes(url[..i]) == 0
    ensures Slashes(url) == 1 && CutBefore(url, i, 1)
  {
    SlashesAround(url, i);
  }

  /** Cutting at the second slash from the end. */
  lemma CutAtSecondSlash(url: string, i: nat, j: nat)
    requires i < |url| && url[i] == '/' && Slashes(url[i + 1..]) == 0
    requires j < i && url[j] == '/' && Slashes(url[j + 1..i]) == 0
    ensures Slashes(url) >= 2 && CutBefore(url, j, 2)
  {
    SlashesAround(url, i);
    SlashesAround(url, j);
    var mid := url[j..i];
    assert mid == ['/'] + url[j + 1..i];
    SlashesAppend(['/'], url[j + 1..i]);
    assert url[j..] == mid + url[i..];
    SlashesAppend(mid, url[i..]);
  }

  /** The base is a beginning of `url` that stops just before a slash, and exactly
      two of `url`'s slashes (or all of them, when it has fewer) come after it. */
  lemma UrlBaseCutsTwoSlashes(url: string)
    ensures var base := UrlBase(url);
            var total := Slashes(url);
            && |base| <= |url| && url[..|base|] == base
            && (|base| < |url| ==> url[|base|] == '/')
            && Slashes(url[|base|..]) == (if total < 2 then total else 2)
  {
    match LastSlash(url)
    case None =>
      assert url[|url|..] == [];
      assert CutBefore(url, |url|, 0);
    case Some(i) =>
      match LastSlash(url[..i])
      case None =>
        CutAtOnlySlash(url, i);
      case Some(j) =>
        assert url[..i][j + 1..] == url[j + 1..i];
        CutAtSecondSlash(url, i, j);
  }

  /** Searching for "/" finds the first slash. */
  lemma FindSlash(href: string)
    ensures Find(href, "/").None? <==> '/' !in href
    ensures Find(href, "/").Some? ==> var i := Find(href, "/").value;
                                      href[i] == '/' && '/' !in href[..i]
  {
    match Find(href, "/")
    case None =>
      forall k | 0 <= k < |href| ensures href[k] != '/' {
        assert href[k..k + 1] == [href[k]];
        assert !OccursAt(href, "/", k);
      }
    case Some(i) =>
      assert href[i..i + 1] == "/";
      assert href[i] == '/';
      forall k | 0 <= k < i ensures href[k] != '/' {
        assert href[k..k + 1] == [href[k]];
        assert !OccursAt(href, "/", k);
      }
  }

  /** `href.split('/', 1)[-1]` (scraper.py:76): what follows the first slash of
      `href`, or all of `href` when it has none. */
  function AfterFirstSlash(href: string): (r: string)
    ensures '/' !in href ==> r == href
    ensures '/' in href ==> && |r| < |href| && href[|href| - |r|..] == r
                            && href[|href| - |r| - 1] == '/' && '/' !in href[..|href| - |r| - 1]
  {
    FindSlash(href);
    match Find(href, "/")
    case None => href
    case Some(i) => href[i + 1..]
  }

  /** An election's page address (scraper.py:76): the list page's base, a slash,
      and the quoted part of the row's link after its first slash. `quote` stands
      for `urllib2.quote`. */
  function ElectionUrl(listUrl: string, href: string, quote: string -> string): string
  {
    UrlBase(listUrl) + "/" + quote(AfterFirstSlash(href))
  }

  /** An election page lives under the list page's address: the two agree up to and
      including the list page's second slash from the end. */
  lemma ElectionUrlSharesBase(listUrl: string, href: string, quote: string -> string)
    requires Slashes(listUrl) >= 2
    ensures var n := |UrlBase(listUrl)| + 1;
            && n <= |listUrl| && n <= |ElectionUrl(listUrl, href, quote)|
            && ElectionUrl(listUrl, href, quote)[..n] == listUrl[..n]
  {
    UrlBaseCutsTwoSlashes(listUrl);
    var base := UrlBase(listUrl);
    assert listUrl[..|base| + 1] == base + "/";
  }

  /** The file an election's page is kept in (scraper.py:81): the sanified council
      name, election name and ".html". */
  function CacheName(councilName: string, electionName: string): string
  {
    Sanify(councilName + "-" + electionName + ".html")
  }

  /** One row of the election list (scraper.py:67-86): skipped when it has no `td`
      cell; otherwise it must have exactly two, the first holding a link. The
      election's wards are read from its page, which the scraper keeps in a file
      named after the council and the election; `pages` gives, for each such file
      name, the tables of the results region of the page it holds. */
  function ElectionOfRow(row: Row, councilName: string, listUrl: string, quote: string -> string,
                         pages: string -> seq<Table>)
    : (r: Result<Option<Election>>)
    ensures var tds := Tds(row);
            r.Ok? && r.value.None? <==> tds == []
    ensures var tds := Tds(row);
            tds != [] && (|tds| != 2 || tds[0].link.None?) ==> r.Err?
    ensures r.Ok? && r.value.Some? ==>
              var tds := Tds(row);
              var e := r.value.value;
              && |tds| == 2 && tds[0].link.Some?
              && e.name == tds[0].text && e.date == tds[1].text
              && e.url == ElectionUrl(listUrl, tds[0].link.value, quote)
  {
    var tds := Tds(row);
    if tds == [] then Ok(None)
    else if |tds| != 2 then Err(ListingRowShape)
    else
      match tds[0].link
      case None => Err(MissingElectionLink)
      case Some(href) =>
        var url := ElectionUrl(listUrl, href, quote);
        match ElectionWards(pages(CacheName(councilName, tds[0].text)))
        case Err(f) => Err(f)
        case Ok(wards) => Ok(Some(Election(tds[0].text, tds[1].text, url, wards)))
  }

  /** Which rows fail, and how: a row with cells but not two of them fails with the
      row-shape fault, and a two-cell row without a link with the missing-link
      fault. A two-cell row with a link yields an election exactly when the page in
      its cache file gives wards, and otherwise fails with that page's fault. */
  lemma ElectionOfRowCases(row: Row, councilName: string, listUrl: string, quote: string -> string,
                           pages: string -> seq<Table>)
    ensures var r := ElectionOfRow(row, councilName, listUrl, quote, pages);
            var tds := Tds(row);
            && (tds != [] && |tds| != 2 ==> r == Err(ListingRowShape))
            && (|tds| == 2 && tds[0].link.None? ==> r == Err(MissingElectionLink))
            && (|tds| == 2 && tds[0].link.Some? ==>
                  var wards := ElectionWards(pages(CacheName(councilName, tds[0].text)));
                  && (r.Ok? <==> wards.Ok?)
                  && (r.Ok? ==> r.value.Some? && wards == Ok(r.value.value.wards))
                  && (wards.Err? ==> r == Err(wards.fault)))
  {
  }

  /** The elections that the rows' results give, in listing order; the first
      failing row stops the run. */
  function Gather(results: seq<Result<Option<Election>>>): Result<seq<Election>>
  {
    if results == [] then Ok([])
    else
      match Gather(results[..|results| - 1])
      case Err(f) => Err(f)
      case Ok(elections) =>
        match results[|results| - 1]
        case Err(f) => Err(f)
        case Ok(None) => Ok(elections)
        case Ok(Some(e)) => Ok(elections + [e])
  }

  /** The result of each row of the listing, in order. */
  function RowResults(rows: seq<Row>, councilName: string, listUrl: string, quote: string -> string,
                      pages: string -> seq<Table>)
    : (results: seq<Result<Option<Election>>>)
    ensures |results| == |rows|
    ensures forall i :: 0 <= i < |rows| ==> results[i] == ElectionOfRow(rows[i], councilName, listUrl, quote, pages)
  {
    seq(|rows|, i requires 0 <= i < |rows| => ElectionOfRow(rows[i], councilName, listUrl, quote, pages))
  }

  /** The council's elections in listing order (scraper.py:66-86). */
  function ElectionsOf(rows: seq<Row>, councilName: string, listUrl: string, quote: string -> string,
                       pages: string -> seq<Table>)
    : Result<seq<Election>>
  {
    Gather(RowResults(rows, councilName, listUrl, quote, pages))
  }

  lemma GatherSnoc(results: seq<Result<Option<Election>>>, x: Result<Option<Election>>)
    ensures Gather(results + [x])
            == match Gather(results)
               case Err(f) => Err(f)
               case Ok(elections) =>
                 match x
                 case Err(f) => Err(f)
                 case Ok(None) => Ok(elections)
                 case Ok(Some(e)) => Ok(elections + [e])
  {
    assert (results + [x])[..|results|] == results;
  }

  /** The run fails exactly when some row's result is a failure. */
  lemma {:induction false} GatherFails(results: seq<Result<Option<Election>>>)
    ensures Gather(results).Err? <==> exists i :: 0 <= i < |results| && results[i].Err?
  {
    if results != [] {
      var front := results[..|results| - 1];
      GatherFails(front);
      assert forall i :: 0 <= i < |front| ==> front[i] == results[i];
    }
  }

  /** A run that does not fail holds exactly the elections of the rows' results. */
  lemma {:induction false} GatherMembers(results: seq<Result<Option<Election>>>)
    requires Gather(results).Ok?
    ensures forall e :: e in Gather(results).value <==>
              exists i :: 0 <= i < |results| && results[i] == Ok(Some(e))
  {
    if results != [] {
      var front := results[..|results| - 1];
      GatherMembers(front);
      forall e ensures e in Gather(results).value <==>
                       exists i :: 0 <= i < |results| && results[i] == Ok(Some(e))
      {
        if exists i :: 0 <= i < |front| && front[i] == Ok(Some(e)) {
          var i :| 0 <= i < |front| && front[i] == Ok(Some(e));
          assert results[i] == front[i];
        }
        if exists i :: 0 <= i < |results| && results[i] == Ok(Some(e)) {
          var i :| 0 <= i < |results| && results[i] == Ok(Some(e));
          if i < |front| {
            assert front[i] == results[i];
          }
        }
      }
    }
  }

  /** Once the rows so far have failed the run, later rows change nothing. */
  lemma {:induction false} GatherFailureSticks(results: seq<Result<Option<Election>>>, n: nat)
    requires n <= |results| && Gather(results[..n]).Err?
    ensures Gather(results) == Gather(results[..n])
    decreases |results| - n
  {
    if n < |results| {
      assert results[..n + 1][..n] == results[..n];
      GatherFailureSticks(results, n + 1);
    } else {
      assert results[..n] == results;
    }
  }

  /** The listing fails exactly when one of its rows fails; otherwise it holds the
      elections its rows yield. */
  lemma ElectionsOfRows(rows: seq<Row>, councilName: string, listUrl: string,
                        quote: string -> string, pages: string -> seq<Table>)
    ensures var r := ElectionsOf(rows, councilName, listUrl, quote, pages);
            && (r.Err? <==> exists i :: 0 <= i < |rows| && ElectionOfRow(rows[i], councilName, listUrl, quote, pages).Err?)
            && (r.Ok? ==> forall e :: e in r.value <==>
                  exists i :: 0 <= i < |rows| && ElectionOfRow(rows[i], councilName, listUrl, quote, pages) == Ok(Some(e)))
  {
    var results := RowResults(rows, councilName, listUrl, quote, pages);
    GatherFails(results);
    if Gather(results).Ok? {
      GatherMembers(results);
    }
  }

  /** A row failing partway through the listing fails the whole listing. */
  lemma ElectionsFailureSticks(rows: seq<Row>, n: nat, councilName: string, listUrl: string,
                               quote: string -> string, pages: string -> seq<Table>)
    requires n <= |rows| && ElectionsOf(rows[..n], councilName, listUrl, quote, pages).Err?
    ensures ElectionsOf(rows, councilName, listUrl, quote, pages) == ElectionsOf(rows[..n], councilName, listUrl, quote, pages)
  {
    var results := RowResults(rows, councilName, listUrl, quote, pages);
    assert RowResults(rows[..n], councilName, listUrl, quote, pages) == results[..n];
    GatherFailureSticks(results, n);
  }

  /** The body of the listing loop (scraper.py:67-86): one row, with `base` the
      list page's base address. */
  method ReadRow(row: Row, base: string, councilName: string, listUrl: string, quote: string -> string,
                 pages: string -> seq<Table>)
    returns (r: Result<Option<Election>>)
    requires base == UrlBase(listUrl)
    ensures r == ElectionOfRow(row, councilName, listUrl, quote, pages)
  {
    var tds := Tds(row);
    if tds == [] {
      return Ok(None);
    }
    if |tds| != 2 {
      return Err(ListingRowShape);
    }
    if tds[0].link.None? {
      return Err(MissingElectionLink);
    }
    var url := base + "/" + quote(AfterFirstSlash(tds[0].link.value));
    var wards := ParseResults(pages(CacheName(councilName, tds[0].text)));
    if wards.Err? {
      return Err(wards.fault);
    }
    r := Ok(Some(Election(tds[0].text, tds[1].text, url, wards.value)));
  }

  /** The listing loop (scraper.py:64-86), as the scraper runs it. */
  method ReadElections(rows: seq<Row>, councilName: string, listUrl: string, quote: string -> string,
                       pages: string -> seq<Table>)
    returns (r: Result<seq<Election>>)
    ensures r == ElectionsOf(rows, councilName, listUrl, quote, pages)
  {
    ghost var results := RowResults(rows, councilName, listUrl, quote, pages);
    var base := UrlBase(listUrl);
    var elections: seq<Election> := [];
    for i := 0 to |rows|
      invariant Gather(results[..i]) == Ok(elections)
    {
      var x := ReadRow(rows[i], base, councilName, listUrl, quote, pages);
      assert x == results[i];
      PrefixSnoc(results, i);
      GatherSnoc(results[..i], x);
      match x
      case Err(f) =>
        GatherFailureSticks(results, i + 1);
        return Err(f);
      case Ok(None) =>
      case Ok(Some(e)) =>
        elections := elections + [e];
    }
    assert results[..|rows|] == results;
    r := Ok(elections);
  }
}
