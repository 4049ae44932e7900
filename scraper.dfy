/** `scrape_data`: visit listing pages 1..pages in order, keep the admitted records of every
    page that answered 200, stop for good on 403 or 429, skip any other failure, and number
    the rows 1..N for the output file, which is written only when there is a row. Fetching
    is the parameter `fetch`: what the site answers for each page index. */
module Scraper {
  import opened Wrappers
  import opened Listing

  /** What fetching one page gives: the request raised (timeout, connection error), or the
      site answered with a status and, for 200, the listing cards found on the page. */
  datatype Page = RequestFailed | Response(status: int, items: seq<Item>)

  /** One output row: NO, NAMA RUMAH, HARGA, LB, LT, KT, KM, GRS. */
  datatype Row = Row(no: int, name: string, price: int, lb: int, lt: int, kt: int, km: int, grs: int)

  /** The loop's state after some pages: rows so far, pages requested, pauses taken, and
      whether a blocking status ended the loop. */
  datatype Progress = Progress(data: seq<Record>, fetched: seq<int>, pauses: nat, blocked: bool)

  /** 403 and 429 mean the site is blocking the scraper. */
  predicate IsBlocking(status: int) {
    status == 403 || status == 429
  }

  predicate Blocks(page: Page) {
    page.Response? && IsBlocking(page.status)
  }

  /** The admitted records of a page's cards, in document order. */
  function PageRecords(items: seq<Item>): seq<Record> {
    if items == [] then []
    else
      var last := Extract(items[|items| - 1]);
      PageRecords(items[..|items| - 1]) + (if last.Some? then [last.value] else [])
  }

  /** The loop over one page's cards (lines 41-96): each card's record, when admitted, is
      appended in document order. */
  method CollectPage(items: seq<Item>) returns (records: seq<Record>)
    ensures records == PageRecords(items)
  {
    records := [];
    var j := 0;
    while j < |items|
      invariant 0 <= j <= |items|
      invariant records == PageRecords(items[..j])
    {
      assert items[..j + 1][..j] == items[..j];
      var rec := ParseItem(items[j]);
      if rec.Some? {
        records := records + [rec.value];
      }
      j := j + 1;
    }
    assert items[..j] == items;
  }

  /** One page of the loop (lines 21-107): request it, then add its records on 200, stop on
      403/429, or pause and go on after any other status. A raised request skips the pause. */
  function Visit(p: Progress, index: int, page: Page): Progress {
    var p := p.(fetched := p.fetched + [index]);
    match page
    case RequestFailed => p
    case Response(status, items) =>
      if status == 200 then p.(data := p.data + PageRecords(items), pauses := p.pauses + 1)
      else if IsBlocking(status) then p.(blocked := true)
      else p.(pauses := p.pauses + 1)
  }

  /** The loop's state after `for page in range(1, n + 1)`, a block ending it early. */
  function Run(fetch: int -> Page, n: int): Progress
    decreases n
  {
    if n <= 0 then Progress([], [], 0, false)
    else
      var p := Run(fetch, n - 1);
      if p.blocked then p else Visit(p, n, fetch(n))
  }

  /** The rows with the NO column: `reset_index`, renamed, plus one. */
  function Numbered(data: seq<Record>): (rows: seq<Row>)
    ensures |rows| == |data|
    ensures forall i :: 0 <= i < |data| ==> rows[i].no == i + 1 && Unnumber(rows[i]) == data[i]
  {
    seq(|data|, i requires 0 <= i < |data| =>
      var r := data[i];
      Row(i + 1, r.name, r.price, r.lb, r.lt, r.kt, r.km, r.grs))
  }

  /** A row without its NO column. */
  function Unnumber(row: Row): Record {
    Record(row.name, row.price, row.lb, row.lt, row.kt, row.km, row.grs)
  }

  /** What is written to the spreadsheet: the numbered rows, or nothing at all when no
      record was admitted (lines 110-121). */
  function Output(data: seq<Record>): (out: Option<seq<Row>>)
    ensures out.None? <==> data == []
    ensures out.Some? ==> |out.value| == |data|
    ensures out.Some? ==> forall i :: 0 <= i < |data| ==> out.value[i].no == i + 1
    ensures out.Some? ==> forall i :: 0 <= i < |data| ==> Unnumber(out.value[i]) == data[i]
  {
    if data == [] then None else Some(Numbered(data))
  }

  /** Once blocked, the loop has stopped: more pages change nothing. */
  lemma {:induction false} RunFrozen(fetch: int -> Page, m: int, n: int)
    requires m <= n && Run(fetch, m).blocked
    ensures Run(fetch, n) == Run(fetch, m)
    decreases n - m
  {
    if m < n {
      RunFrozen(fetch, m, n - 1);
    }
  }

  /** A page the loop reaches is visited on top of the state the earlier pages left. */
  lemma RunNext(fetch: int -> Page, n: int)
    requires n >= 1 && !Run(fetch, n - 1).blocked
    ensures Run(fetch, n) == Visit(Run(fetch, n - 1), n, fetch(n))
  {
  }

  /** `scrape_data(pages)` (lines 17-121), the network replaced by `fetch`. */
  method ScrapeData(pages: int, fetch: int -> Page)
    returns (output: Option<seq<Row>>, fetched: seq<int>, pauses: nat)
    ensures var p := Run(fetch, pages);
            output == Output(p.data) && fetched == p.fetched && pauses == p.pauses
  {
    var allData: seq<Record> := [];
    fetched, pauses := [], 0;
    var page := 1;
    while page <= pages
      invariant 1 <= page && (page <= pages + 1 || page == 1)
      invariant Run(fetch, page - 1) == Progress(allData, fetched, pauses, false)
    {
      fetched := fetched + [page];
      match fetch(page) {
        case RequestFailed =>
          // "Request failed": nothing from this page, and no pause
        case Response(status, items) =>
          if status == 200 {
            var records := CollectPage(items);
            allData := allData + records;
          } else if IsBlocking(status) {
            // "Blocked by anti-scraping. Stopping."
            RunNext(fetch, page);
            RunFrozen(fetch, page, pages);
            output := Output(allData);
            return;
          }
          pauses := pauses + 1;
      }
      RunNext(fetch, page);
      page := page + 1;
    }
    output := Output(allData);
  }

  /** Records from pages 1..n when nothing blocks: the admitted records of every page that
      answered 200, in page order. */
  function Harvest(fetch: int -> Page, n: int): seq<Record>
    decreases n
  {
    if n <= 0 then []
    else
      var page := fetch(n);
      Harvest(fetch, n - 1)
      + (if page.Response? && page.status == 200 then PageRecords(page.items) else [])
  }

  /** The loop is blocked exactly when some page it reached answered 403 or 429. */
  lemma {:induction false} RunBlockedIff(fetch: int -> Page, n: int)
    ensures Run(fetch, n).blocked <==> exists q :: 1 <= q <= n && Blocks(fetch(q))
    decreases n
  {
    if n > 0 {
      RunBlockedIff(fetch, n - 1);
      if Run(fetch, n - 1).blocked {
        var q :| 1 <= q <= n - 1 && Blocks(fetch(q));
        assert 1 <= q <= n;
      } else if exists q :: 1 <= q <= n && Blocks(fetch(q)) {
        var q :| 1 <= q <= n && Blocks(fetch(q));
        assert q == n;
      }
    }
  }

  /** With no blocking page among 1..n, the loop keeps every 200 page's records, in order. */
  lemma {:induction false} RunHarvest(fetch: int -> Page, n: int)
    requires forall q :: 1 <= q <= n ==> !Blocks(fetch(q))
    ensures !Run(fetch, n).blocked && Run(fetch, n).data == Harvest(fetch, n)
    decreases n
  {
    if n > 0 {
      RunHarvest(fetch, n - 1);
      RunNext(fetch, n);
      VisitData(Run(fetch, n - 1), n, fetch(n));
    }
  }

  /** A page that does not block leaves the loop running and adds its records when it
      answered 200. */
  lemma VisitData(p: Progress, index: int, page: Page)
    requires !p.blocked && !Blocks(page)
    ensures !Visit(p, index, page).blocked
    ensures Visit(p, index, page).data
            == p.data + (if page.Response? && page.status == 200 then PageRecords(page.items) else [])
  {
  }

  /** A 403 or 429 on page b ends the loop there: whatever the later pages hold, the data is
      that of pages 1..b-1, and pages 1..b were requested, in order, and no other. */
  lemma RunStopsAtBlock(fetch: int -> Page, b: int, n: int)
    requires 1 <= b <= n && Blocks(fetch(b))
    requires forall q :: 1 <= q < b ==> !Blocks(fetch(q))
    ensures Run(fetch, n).blocked
    ensures Run(fetch, n).data == Harvest(fetch, b - 1)
    ensures Run(fetch, n).fetched == Pages(b)
  {
    RunHarvest(fetch, b - 1);
    RunFetched(fetch, b - 1);
    RunFrozen(fetch, b, n);
  }

  /** The page indices 1..n, in increasing order. */
  function Pages(n: int): (s: seq<int>)
    ensures |s| == (if n < 0 then 0 else n)
    ensures forall i :: 0 <= i < |s| ==> s[i] == i + 1
    decreases n
  {
    if n <= 0 then [] else Pages(n - 1) + [n]
  }

  /** Without a block, the loop requests exactly pages 1..n in increasing order. */
  lemma {:induction false} RunFetched(fetch: int -> Page, n: int)
    requires forall q :: 1 <= q <= n ==> !Blocks(fetch(q))
    ensures Run(fetch, n).fetched == Pages(n)
    decreases n
  {
    if n > 0 {
      RunFetched(fetch, n - 1);
      RunUnblocked(fetch, n - 1);
      RunNext(fetch, n);
      VisitFetched(Run(fetch, n - 1), n, fetch(n));
    }
  }

  /** With no blocking page among 1..n, the loop is still running after page n. */
  lemma {:induction false} RunUnblocked(fetch: int -> Page, n: int)
    requires forall q :: 1 <= q <= n ==> !Blocks(fetch(q))
    ensures !Run(fetch, n).blocked
    decreases n
  {
    if n > 0 {
      RunUnblocked(fetch, n - 1);
    }
  }

  /** A visit requests exactly its own page. */
  lemma VisitFetched(p: Progress, index: int, page: Page)
    ensures Visit(p, index, page).fetched == p.fetched + [index]
  {
  }

  /** Every record that reaches the output is admissible (positive price, defaulted features). */
  lemma {:induction false} PageRecordsAdmissible(items: seq<Item>)
    ensures forall r :: r in PageRecords(items) ==> Admissible(r)
    decreases |items|
  {
    if items != [] {
      var init := items[..|items| - 1];
      var last := Extract(items[|items| - 1]);
      PageRecordsAdmissible(init);
      if last.Some? {
        ExtractRecord(items[|items| - 1]);
        AdmissibleSnoc(PageRecords(init), last.value);
      }
    }
  }

  lemma AdmissibleSnoc(rs: seq<Record>, r: Record)
    requires forall x :: x in rs ==> Admissible(x)
    requires Admissible(r)
    ensures forall x :: x in rs + [r] ==> Admissible(x)
  {
  }

  lemma {:induction false} RunAdmissible(fetch: int -> Page, n: int)
    ensures forall r :: r in Run(fetch, n).data ==> Admissible(r)
    decreases n
  {
    if n > 0 {
      RunAdmissible(fetch, n - 1);
      var page := fetch(n);
      if page.Response? {
        PageRecordsAdmissible(page.items);
      }
    }
  }

  /** Each page the loop requested ends in exactly one of: a pause, a raised request, or
      the block that stopped the loop. */
  lemma {:induction false} RunPauses(fetch: int -> Page, n: int)
    ensures PausesBalance(fetch, Run(fetch, n))
    decreases n
  {
    if n > 0 {
      RunPauses(fetch, n - 1);
      if !Run(fetch, n - 1).blocked {
        RunNext(fetch, n);
        VisitBalance(fetch, Run(fetch, n - 1), n);
      }
    }
  }

  /** Each page requested so far ended in exactly one of: a pause, a raised request, or the
      block that stopped the loop. */
  predicate PausesBalance(fetch: int -> Page, p: Progress) {
    p.pauses + Failed(fetch, p.fetched) + (if p.blocked then 1 else 0) == |p.fetched|
  }

  /** A visit keeps the balance: the page it requests ends in one of the three ways. */
  lemma VisitBalance(fetch: int -> Page, p: Progress, index: int)
    requires !p.blocked && PausesBalance(fetch, p)
    ensures PausesBalance(fetch, Visit(p, index, fetch(index)))
  {
    FailedSnoc(fetch, p.fetched, index);
  }

  /** How many of the given pages raised on request. */
  function Failed(fetch: int -> Page, indices: seq<int>): nat {
    if indices == [] then 0
    else Failed(fetch, indices[..|indices| - 1])
         + (if fetch(indices[|indices| - 1]).RequestFailed? then 1 else 0)
  }

  lemma FailedSnoc(fetch: int -> Page, indices: seq<int>, q: int)
    ensures Failed(fetch, indices + [q])
            == Failed(fetch, indices) + (if fetch(q).RequestFailed? then 1 else 0)
  {
    assert (indices + [q])[..|indices|] == indices;
  }

  /** The blocking scenario: pages 1 and 2 answer 200 and page 3 answers 403. Whatever the
      page count, the output holds exactly the records of pages 1 and 2, numbered from 1,
      and no page after 3 is requested. */
  lemma BlockedThirdPage(fetch: int -> Page, n: int, first: seq<Item>, second: seq<Item>)
    requires n >= 3
    requires fetch(1) == Response(200, first) && fetch(2) == Response(200, second)
    requires fetch(3) == Response(403, [])
    ensures Run(fetch, n).data == PageRecords(first) + PageRecords(second)
    ensures Run(fetch, n).fetched == [1, 2, 3]
  {
    RunStopsAtBlock(fetch, 3, n);
    assert Harvest(fetch, 0) == [];
    assert Harvest(fetch, 1) == PageRecords(first);
    assert Pages(3) == [1, 2, 3];
  }
}
