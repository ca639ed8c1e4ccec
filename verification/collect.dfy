/**
 The page-collection loop `get_ebay_item_info` of both copies of
 `EasyEbayData`, with `test_connection` and `get_max_pages` of the package
 copy.

 The search service is a parameter: the connection check's reply is a
 `Probe`, and `answer(p)` is the reply the loop receives when it requests
 page `p`. The loop requests pages 1, 2, ... in order. It appends the
 flattened items of every successful page. In the package copy it returns
 what it has once the third unsuccessful page arrives, counting all failures
 so far rather than consecutive ones.
 */
module Collect {
  import opened Py
  import opened Unembed
  import opened Seqs

  /** What one `execute('findItemsAdvanced', ...)` call gives the loop. */
  datatype PageReply =
    | Success(items: seq<Value>)  // `reply.ack == 'Success'`, with `searchResult.item`
    | NotSuccess                  // any other acknowledgement
    | Raised                      // the call raised `ConnectionError`

  /** What the connection check receives for page 1. */
  datatype Probe =
    | ProbeRaised                               // the call raised `ConnectionError`
    | ProbeReply(ack: bool, totalPages: int)    // `ack`: the acknowledgement was 'Success'

  /** The constructor's `max_pages`: `False` (the default) or an integer. */
  datatype MaxPages = Unset | Pages(n: int)

  /** When the loop gives up early. */
  type Positive = n: nat | 0 < n witness 1
  datatype StopRule =
    | NeverStop                    // ebaydata.py: failures never end the loop
    | StopAfter(limit: Positive)   // ebaydata/ebaydata.py: end at the `limit`-th failure

  /** What `get_ebay_item_info` hands back: a DataFrame of the rows, `None`,
      or an exception. */
  datatype Outcome = Frame(rows: seq<Record>) | Nothing | Raises(error: PyError)

  /** Python truthiness of `max_pages`: `False` and `0` are falsy. */
  predicate Falsy(m: MaxPages)
  {
    m.Unset? || m.n == 0
  }

  /** The page count the caller asked for, or else the one the service reported. */
  function PageCount(m: MaxPages, totalPages: int): int
  {
    if Falsy(m) then totalPages else m.n
  }

  /** `get_max_pages` of the package copy. */
  function GetMaxPages(m: MaxPages, totalPages: int): int
  {
    PageCount(m, totalPages) + 1
  }

  /** How many page numbers `range(1, stop + 1)` yields. */
  function RangeLength(stop: int): nat
  {
    if stop > 0 then stop else 0
  }

  /** The replies to pages 1 .. `stop`, in request order. */
  function Window(answer: int -> PageReply, stop: int): (w: seq<PageReply>)
    ensures |w| == RangeLength(stop)
    ensures forall i :: 0 <= i < |w| ==> w[i] == answer(i + 1)
  {
    seq(RangeLength(stop), i => answer(i + 1))
  }

  /** The page numbers 1, 2, ..., `n`, in request order. */
  function FirstPages(n: nat): seq<int>
  {
    if n == 0 then [] else FirstPages(n - 1) + [n]
  }

  /** Page `i + 1` is requested `i`-th: each page once, in increasing order. */
  lemma {:induction false} FirstPagesInOrder(n: nat)
    ensures |FirstPages(n)| == n
    ensures forall i :: 0 <= i < n ==> FirstPages(n)[i] == i + 1
  {
    if n > 0 {
      FirstPagesInOrder(n - 1);
    }
  }

  // ---- What one page contributes -----------------------------------------

  /** A reply that ends the whole call with an exception: a raised call, or a
      successful page with an item that is not a dict. */
  predicate Fatal(r: PageReply)
  {
    r.Raised? || (r.Success? && !AllDicts(r.items))
  }

  function FatalError(r: PageReply): PyError
    requires Fatal(r)
  {
    if r.Raised? then ConnectionError else AssertionError
  }

  /** The rows a page adds to `all_items`. */
  function PageRows(r: PageReply): seq<Record>
  {
    if r.Success? && AllDicts(r.items) then FlattenItems(r.items).value else []
  }

  /** The rows of all pages of `s`, in page order. */
  function AllRows(s: seq<PageReply>): seq<Record>
  {
    FlatMap(s, PageRows)
  }

  /** No page of `s` ends the call with an exception. */
  predicate Clean(s: seq<PageReply>)
  {
    s == [] || (Clean(s[..|s| - 1]) && !Fatal(s[|s| - 1]))
  }

  /** The number of unsuccessful pages in `s`. */
  function Failures(s: seq<PageReply>): nat
  {
    if s == [] then 0 else Failures(s[..|s| - 1]) + (if s[|s| - 1].NotSuccess? then 1 else 0)
  }

  // ---- The loop, specified by where it stops -------------------------------

  /** The loop over `replies` requests exactly the first `k` of them: it went
      past every earlier page, and page `k` is the last of the window, or
      raised, or was the failure that reached the limit. */
  ghost predicate StoppedAt(replies: seq<PageReply>, rule: StopRule, k: nat)
  {
    && k <= |replies|
    && (k == 0 ==> |replies| == 0)
    && (0 < k ==>
          && Clean(replies[..k - 1])
          && (rule.StopAfter? ==> Failures(replies[..k - 1]) < rule.limit)
          && (|replies| == k
              || Fatal(replies[k - 1])
              || (rule.StopAfter? && Failures(replies[..k]) == rule.limit)))
  }

  /** The loop over `replies` returned `out` after requesting `pages`. */
  ghost predicate Collected(replies: seq<PageReply>, rule: StopRule, out: Outcome, pages: seq<int>)
  {
    && |pages| <= |replies|
    && StoppedAt(replies, rule, |pages|)
    && pages == FirstPages(|pages|)
    && (out.Frame? <==> Clean(replies[..|pages|]))
    && (out.Frame? ==> out.rows == AllRows(replies[..|pages|]))
    && (!out.Frame? ==> 0 < |pages| && Fatal(replies[|pages| - 1]) && out == Raises(FatalError(replies[|pages| - 1])))
  }

  /** Taking one more page into the prefix adds that page's rows and failure. */
  lemma PrefixStep(s: seq<PageReply>, k: nat)
    requires k < |s|
    ensures Failures(s[..k + 1]) == Failures(s[..k]) + (if s[k].NotSuccess? then 1 else 0)
    ensures AllRows(s[..k + 1]) == AllRows(s[..k]) + PageRows(s[k])
    ensures Clean(s[..k + 1]) <==> Clean(s[..k]) && !Fatal(s[k])
  {
    assert s[..k + 1][..k] == s[..k];
    assert s[..k + 1] == s[..k] + [s[k]];
    FlatMapAppend(s[..k], [s[k]], PageRows);
  }

  /** The loop leaves after the reply at index `k` (page `k + 1`): it went
      cleanly past the `k` replies before, and this one is the last, raised,
      or was the failure that reached the limit. */
  lemma LeaveAt(replies: seq<PageReply>, rule: StopRule, k: nat, out: Outcome)
    requires k < |replies| && Clean(replies[..k])
    requires rule.StopAfter? ==> Failures(replies[..k]) < rule.limit
    requires k + 1 == |replies| || Fatal(replies[k])
             || (rule.StopAfter? && replies[k].NotSuccess? && Failures(replies[..k]) + 1 == rule.limit)
    requires Fatal(replies[k]) ==> out == Raises(FatalError(replies[k]))
    requires !Fatal(replies[k]) ==> out == Frame(AllRows(replies[..k]) + PageRows(replies[k]))
    ensures Collected(replies, rule, out, FirstPages(k + 1))
  {
    var pages := FirstPages(k + 1);
    FirstPagesInOrder(k + 1);
    assert |pages| == k + 1;
    PrefixStep(replies, k);
    // Each conjunct of `Collected` is proved on its own, which keeps the
    // solver's search small.
    assert StoppedAt(replies, rule, k + 1) by {
      assert replies[..k + 1][..k] == replies[..k];
    }
    assert out.Frame? <==> Clean(replies[..k + 1]) by {
    }
    assert out.Frame? ==> out.rows == AllRows(replies[..k + 1]) by {
    }
    assert !out.Frame? ==> Fatal(replies[k]) && out == Raises(FatalError(replies[k])) by {
    }
  }

  /** The loop runs out of pages having gone cleanly past all of them. */
  lemma LeaveAtEnd(replies: seq<PageReply>, rule: StopRule, out: Outcome)
    requires Clean(replies)
    requires 0 < |replies| && rule.StopAfter? ==> Failures(replies[..|replies| - 1]) < rule.limit
    requires out == Frame(AllRows(replies))
    ensures Collected(replies, rule, out, FirstPages(|replies|))
  {
    if |replies| > 0 {
      var k := |replies| - 1;
      assert replies[..k + 1] == replies;
      PrefixStep(replies, k);
      LeaveAt(replies, rule, k, out);
    } else {
      assert replies[..0] == replies;
    }
  }

  /** The `for page in range(...)` loop over the replies of the pages it may
      request. */
  method WalkPages(replies: seq<PageReply>, rule: StopRule) returns (out: Outcome, pages: seq<int>)
    ensures Collected(replies, rule, out, pages)
  {
    var allItems: seq<Record> := [];
    var totalErrors := 0;
    var k := 0;
    pages := [];
    while k < |replies|
      invariant k <= |replies| && pages == FirstPages(k)
      invariant Clean(replies[..k])
      invariant totalErrors == Failures(replies[..k])
      invariant rule.StopAfter? ==> totalErrors < rule.limit
      invariant allItems == AllRows(replies[..k])
    {
      var page := k + 1;
      pages := pages + [page];
      PrefixStep(replies, k);
      match replies[page - 1] {
        case Raised =>
          out := Raises(ConnectionError);
          LeaveAt(replies, rule, k, out);
          return;
        case NotSuccess =>
          totalErrors := totalErrors + 1;
          if rule.StopAfter? && totalErrors == rule.limit {
            out := Frame(allItems);
            assert allItems + PageRows(NotSuccess) == allItems;
            LeaveAt(replies, rule, k, out);
            return;
          }
          assert allItems == allItems + PageRows(replies[k]);
        case Success(items) =>
          var data := FlattenItems(items);
          if data.Err? {
            out := Raises(AssertionError);
            LeaveAt(replies, rule, k, out);
            return;
          }
          assert data.value == PageRows(replies[k]);
          allItems := allItems + data.value;
      }
      k := k + 1;
    }
    assert replies[..k] == replies;
    out := Frame(allItems);
    LeaveAtEnd(replies, rule, out);
  }


  // ---- The stop point is determined by the replies --------------------------

  /** `Clean` is "no page raises", page by page. */
  lemma {:induction false} CleanAll(s: seq<PageReply>)
    ensures Clean(s) <==> forall i :: 0 <= i < |s| ==> !Fatal(s[i])
    decreases |s|
  {
    if s != [] {
      var init := s[..|s| - 1];
      CleanAll(init);
      assert forall i :: 0 <= i < |init| ==> init[i] == s[i];
    }
  }

  /** A longer prefix never has fewer failures. */
  lemma {:induction false} FailuresMonotone(s: seq<PageReply>, j: nat, k: nat)
    requires j <= k <= |s|
    ensures Failures(s[..j]) <= Failures(s[..k])
    decreases k - j
  {
    if j < k {
      PrefixStep(s, j);
      FailuresMonotone(s, j + 1, k);
    }
  }

  /** A prefix free of raising pages has clean prefixes. */
  lemma CleanShorter(s: seq<PageReply>, j: nat, k: nat)
    requires j <= k <= |s| && Clean(s[..k])
    ensures Clean(s[..j])
  {
    CleanAll(s[..k]);
    CleanAll(s[..j]);
    assert forall i :: 0 <= i < j ==> s[..j][i] == s[..k][i];
  }

  /** At most one number of pages fits the stop condition: the loop has
      nowhere else to stop. */
  lemma StoppedAtUnique(replies: seq<PageReply>, rule: StopRule, k1: nat, k2: nat)
    requires StoppedAt(replies, rule, k1) && StoppedAt(replies, rule, k2)
    ensures k1 == k2
  {
    if k1 < k2 {
      WentPast(replies, rule, k1, k2);
    } else if k2 < k1 {
      WentPast(replies, rule, k2, k1);
    }
  }

  /** A stop point after page `k1` means the loop went on past page `k1`: that
      page was not the last, did not raise, and left the counter below the
      limit. */
  lemma WentPast(replies: seq<PageReply>, rule: StopRule, k1: nat, k2: nat)
    requires StoppedAt(replies, rule, k2)
    requires 0 < k1 < k2
    ensures k1 < |replies| && !Fatal(replies[k1 - 1])
    ensures rule.StopAfter? ==> Failures(replies[..k1]) < rule.limit
  {
    CleanShorter(replies, k1, k2 - 1);
    PrefixStep(replies, k1 - 1);
    if rule.StopAfter? {
      FailuresMonotone(replies, k1, k2 - 1);
    }
  }

  /** Two runs over the same replies under the same rule request the same pages
      and return the same thing: `Collected` pins the loop down completely. */
  lemma CollectedDeterministic(replies: seq<PageReply>, rule: StopRule,
                               out1: Outcome, pages1: seq<int>, out2: Outcome, pages2: seq<int>)
    requires Collected(replies, rule, out1, pages1) && Collected(replies, rule, out2, pages2)
    ensures out1 == out2 && pages1 == pages2
  {
    StoppedAtUnique(replies, rule, |pages1|, |pages2|);
  }

  /** Without an early stop, a run that meets no raising page requests every
      page and returns the rows of all of them. */
  lemma NeverStopWalksAll(replies: seq<PageReply>, out: Outcome, pages: seq<int>)
    requires Collected(replies, NeverStop, out, pages)
    requires Clean(replies)
    ensures |pages| == |replies|
    ensures out == Frame(AllRows(replies))
  {
    var k := |pages|;
    if k < |replies| {
      CleanAll(replies);
      assert false;
    }
    assert replies[..k] == replies;
    CleanAll(replies);
  }

  /** An unsuccessful page adds no rows wherever it falls: the rows are
      those of the successful pages alone. */
  lemma FailedPageAddsNothing(a: seq<PageReply>, b: seq<PageReply>)
    ensures AllRows(a + [NotSuccess] + b) == AllRows(a + b)
  {
    var mid := [NotSuccess];
    assert AllRows(mid) == [] by {
      assert mid[1..] == [];
    }
    assert AllRows(a + mid) == AllRows(a) by {
      FlatMapAppend(a, mid, PageRows);
      assert AllRows(a) + [] == AllRows(a);
    }
    FlatMapAppend(a + mid, b, PageRows);
    FlatMapAppend(a, b, PageRows);
  }


  /** Failures on pages 1, 3 and 5, each followed by an empty successful page. */
  const SpreadFailures: seq<PageReply> :=
    [NotSuccess, Success([]), NotSuccess, Success([]), NotSuccess, Success([])]

  /** A page that is unsuccessful or successful and empty adds no rows. */
  lemma EmptyPageStep(s: seq<PageReply>, k: nat)
    requires k < |s| && (s[k] == NotSuccess || s[k] == Success([]))
    requires Clean(s[..k]) && AllRows(s[..k]) == []
    ensures Clean(s[..k + 1]) && AllRows(s[..k + 1]) == []
    ensures Failures(s[..k + 1]) == Failures(s[..k]) + (if s[k] == NotSuccess then 1 else 0)
  {
    PrefixStep(s, k);
    assert PageRows(s[k]) == [] && !Fatal(s[k]);
  }

  lemma SpreadFailuresStopAtFive()
    ensures StoppedAt(SpreadFailures, StopAfter(3), 5)
    ensures Clean(SpreadFailures[..5]) && AllRows(SpreadFailures[..5]) == []
  {
    var r := SpreadFailures;
    assert r[..0] == [];
    EmptyPageStep(r, 0);
    EmptyPageStep(r, 1);
    EmptyPageStep(r, 2);
    EmptyPageStep(r, 3);
    EmptyPageStep(r, 4);
  }

  lemma FirstFivePages()
    ensures FirstPages(5) == [1, 2, 3, 4, 5]
  {
  }

  /** The failure counter counts every unsuccessful page, not a run of
      consecutive ones: failures on pages 1, 3 and 5, with successful pages in
      between, end the package's loop after page 5. */
  lemma TotalNotConsecutive(out: Outcome, pages: seq<int>)
    requires Collected(SpreadFailures, StopAfter(3), out, pages)
    ensures pages == [1, 2, 3, 4, 5]
    ensures out == Frame([])
  {
    SpreadFailuresStopAtFive();
    StoppedAtUnique(SpreadFailures, StopAfter(3), |pages|, 5);
    FirstFivePages();
  }

  /** The `i`-th reply the loop reads is the answer to the `i`-th page it
      requests. */
  lemma RepliesMatchPages(answer: int -> PageReply, stop: int, rule: StopRule, out: Outcome, pages: seq<int>)
    requires Collected(Window(answer, stop), rule, out, pages)
    ensures |pages| <= |Window(answer, stop)|
    ensures forall i :: 0 <= i < |pages| ==> Window(answer, stop)[i] == answer(pages[i])
  {
    FirstPagesInOrder(|pages|);
  }

  // ---- The entry points ------------------------------------------------------

  /** `get_ebay_item_info` of the package copy: the connection check, then the
      loop over pages 1 .. `get_max_pages(...)`, giving up at the third failure.
      `pages` lists the loop's requests only. The connection check has already
      requested page 1 once, and its reply `probe` is separate from `answer(1)`,
      the reply the loop receives for page 1. */
  method PackageGetItemInfo(maxPages: MaxPages, probe: Probe, answer: int -> PageReply)
    returns (out: Outcome, pages: seq<int>)
    ensures probe.ProbeRaised? ==> out == Nothing && pages == []
    ensures probe.ProbeReply? && !probe.ack ==> out == Raises(AssertionError) && pages == []
    ensures probe.ProbeReply? && probe.ack ==>
              Collected(Window(answer, GetMaxPages(maxPages, probe.totalPages)), StopAfter(3), out, pages)
    ensures probe.ProbeReply? ==>
              |pages| <= |Window(answer, GetMaxPages(maxPages, probe.totalPages))|
              && forall i :: 0 <= i < |pages| ==> Window(answer, GetMaxPages(maxPages, probe.totalPages))[i] == answer(pages[i])
  {
    match probe {
      case ProbeRaised =>
        out, pages := Nothing, [];
      case ProbeReply(ack, totalPages) =>
        if !ack {
          out, pages := Raises(AssertionError), [];
        } else {
          out, pages := WalkPages(Window(answer, GetMaxPages(maxPages, totalPages)), StopAfter(3));
          RepliesMatchPages(answer, GetMaxPages(maxPages, totalPages), StopAfter(3), out, pages);
        }
    }
  }

  /** `get_ebay_item_info` of the older top-level copy: no connection check of
      its own and no early stop. A raised first request, or a first reply that
      is not a success, leaves `response` or `pages2pull` unassigned.
      `pages` lists the loop's requests only. The first request, made before
      the loop, also asks for page 1; its reply `probe` is separate from
      `answer(1)`. */
  method LegacyGetItemInfo(maxPages: MaxPages, probe: Probe, answer: int -> PageReply)
    returns (out: Outcome, pages: seq<int>)
    ensures !(probe.ProbeReply? && probe.ack) ==> out == Raises(UnboundLocalError) && pages == []
    ensures probe.ProbeReply? && probe.ack ==>
              Collected(Window(answer, PageCount(maxPages, probe.totalPages)), NeverStop, out, pages)
    ensures probe.ProbeReply? && probe.ack && Clean(Window(answer, PageCount(maxPages, probe.totalPages))) ==>
              pages == FirstPages(RangeLength(PageCount(maxPages, probe.totalPages)))
              && out == Frame(AllRows(Window(answer, PageCount(maxPages, probe.totalPages))))
    ensures probe.ProbeReply? ==>
              |pages| <= |Window(answer, PageCount(maxPages, probe.totalPages))|
              && forall i :: 0 <= i < |pages| ==> Window(answer, PageCount(maxPages, probe.totalPages))[i] == answer(pages[i])
  {
    if probe.ProbeRaised? || !probe.ack {
      out, pages := Raises(UnboundLocalError), [];
    } else {
      var window := Window(answer, PageCount(maxPages, probe.totalPages));
      out, pages := WalkPages(window, NeverStop);
      RepliesMatchPages(answer, PageCount(maxPages, probe.totalPages), NeverStop, out, pages);
      if Clean(window) {
        NeverStopWalksAll(window, out, pages);
      }
    }
  }

  /** The package entry point with the page range it evidently means: pages
      1 .. N for the N pages asked for or reported, never page N + 1. */
  method IntendedGetItemInfo(maxPages: MaxPages, probe: Probe, answer: int -> PageReply)
    returns (out: Outcome, pages: seq<int>)
    ensures probe.ProbeRaised? ==> out == Nothing && pages == []
    ensures probe.ProbeReply? && !probe.ack ==> out == Raises(AssertionError) && pages == []
    ensures probe.ProbeReply? && probe.ack ==>
              Collected(Window(answer, PageCount(maxPages, probe.totalPages)), StopAfter(3), out, pages)
    ensures probe.ProbeReply? ==> forall i :: 0 <= i < |pages| ==> 1 <= pages[i] <= PageCount(maxPages, probe.totalPages)
    ensures probe.ProbeReply? ==>
              |pages| <= |Window(answer, PageCount(maxPages, probe.totalPages))|
              && forall i :: 0 <= i < |pages| ==> Window(answer, PageCount(maxPages, probe.totalPages))[i] == answer(pages[i])
  {
    match probe {
      case ProbeRaised =>
        out, pages := Nothing, [];
      case ProbeReply(ack, totalPages) =>
        if !ack {
          out, pages := Raises(AssertionError), [];
        } else {
          out, pages := WalkPages(Window(answer, PageCount(maxPages, totalPages)), StopAfter(3));
          FirstPagesInOrder(|pages|);
          RepliesMatchPages(answer, PageCount(maxPages, totalPages), StopAfter(3), out, pages);
        }
    }
  }

  /** `get_max_pages` adds one to the count it settles on (the reported
      total when `max_pages` is `False` or `0`, else `max_pages`), so the
      package's window is the intended one plus the reply to page `N + 1`. */
  lemma PackageWindowHasExtraPage(maxPages: MaxPages, totalPages: int, answer: int -> PageReply)
    ensures Falsy(maxPages) ==> GetMaxPages(maxPages, totalPages) == totalPages + 1
    ensures !Falsy(maxPages) ==> GetMaxPages(maxPages, totalPages) == maxPages.n + 1
    ensures 0 <= PageCount(maxPages, totalPages) ==>
              Window(answer, GetMaxPages(maxPages, totalPages))
              == Window(answer, PageCount(maxPages, totalPages)) + [answer(PageCount(maxPages, totalPages) + 1)]
  {
    var n := PageCount(maxPages, totalPages);
    if 0 <= n {
      var w, v := Window(answer, n + 1), Window(answer, n);
      assert |w| == |v + [answer(n + 1)]|;
      forall i | 0 <= i < |w| ensures w[i] == (v + [answer(n + 1)])[i] {
        if i < n {
          assert w[i] == answer(i + 1) == v[i];
        }
      }
    }
  }

  /** As written, the package requests one page past the count: with `N`
      pages reported (or asked for), a run that neither raises nor reaches
      the failure limit ends by requesting page `N + 1`. */
  lemma PackageRequestsExtraPage(maxPages: MaxPages, totalPages: int, answer: int -> PageReply,
                                 out: Outcome, pages: seq<int>)
    requires 0 <= PageCount(maxPages, totalPages)
    requires Clean(Window(answer, GetMaxPages(maxPages, totalPages)))
    requires Failures(Window(answer, GetMaxPages(maxPages, totalPages))) < 3
    requires Collected(Window(answer, GetMaxPages(maxPages, totalPages)), StopAfter(3), out, pages)
    ensures |pages| == PageCount(maxPages, totalPages) + 1
    ensures pages[|pages| - 1] == PageCount(maxPages, totalPages) + 1
  {
    var w := Window(answer, GetMaxPages(maxPages, totalPages));
    var k := |pages|;
    if k < |w| {
      CleanAll(w);
      assert w[..|w|] == w;
      FailuresMonotone(w, k, |w|);
      assert false;
    }
    FirstPagesInOrder(k);
  }
}
