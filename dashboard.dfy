/**
  `display_nameserver_dashboard` without the terminal: the status of each result, the two
  counters it returns, and the summary it shows (the 50-cell bar and the completion
  estimate). The propagation percentage is `100 * propagated / responsive`, or 0 when no
  resolver responded; it is used here through exact integer comparisons.
 */
module Dashboard {
  import opened Text
  import opened DigQuery
  import opened Nameservers
  import opened Propagation

  /** The status text of one result line. */
  datatype Status = Error | NoData | Cloudflare | OldNs

  /** `any(is_cloudflare_nameserver(answer) for answer in res["answers"])`. */
  predicate HasCloudflare(answers: seq<string>, targets: seq<string>) {
    exists k | 0 <= k < |answers| :: IsCloudflareNameserver(answers[k], targets)
  }

  /** The status chain: a failed query, then an empty answer, then the answers' nameservers. */
  function Classify(res: QueryResult, targets: seq<string>): (st: Status) {
    if !res.success then Error
    else if res.answers == [] then NoData
    else if HasCloudflare(res.answers, targets) then Cloudflare
    else OldNs
  }

  /** Exactly one status holds for each result, and each has its own condition. */
  lemma ClassifyIff(res: QueryResult, targets: seq<string>)
    ensures Classify(res, targets) == Error <==> !res.success
    ensures Classify(res, targets) == NoData <==> res.success && res.answers == []
    ensures Classify(res, targets) == Cloudflare <==> res.success && HasCloudflare(res.answers, targets)
    ensures Classify(res, targets) == OldNs <==> res.success && res.answers != [] && !HasCloudflare(res.answers, targets)
  {
  }

  /**
    A result is counted as propagated iff some answer, lower-cased, is a lower-cased target
    followed by trailing dots only.
   */
  lemma CloudflareStatusIff(res: QueryResult, targets: seq<string>)
    ensures Classify(res, targets) == Cloudflare <==>
              res.success && exists k, i | 0 <= k < |res.answers| && 0 <= i < |targets| ::
                DotsAfter(Lower(res.answers[k]), Lower(targets[i]))
  {
    forall k | 0 <= k < |res.answers| {
      MatchIff(res.answers[k], targets);
    }
  }

  /** The two counters of the dashboard. */
  datatype Counter = Responsive | Propagated

  /** `total_responsive_servers` counts successes, `cloudflare_propagated` the Cloudflare lines. */
  predicate Counted(c: Counter, res: QueryResult, targets: seq<string>) {
    match c
    case Responsive => res.success
    case Propagated => Classify(res, targets) == Cloudflare
  }

  /** How many results a counter takes in. */
  function CountWhere(results: seq<QueryResult>, c: Counter, targets: seq<string>): (n: nat)
    ensures n <= |results|
    decreases |results|
  {
    if results == [] then 0
    else CountWhere(results[..|results| - 1], c, targets) + (if Counted(c, results[|results| - 1], targets) then 1 else 0)
  }

  lemma CountSnoc(results: seq<QueryResult>, x: QueryResult, c: Counter, targets: seq<string>)
    ensures CountWhere(results + [x], c, targets) == CountWhere(results, c, targets) + (if Counted(c, x, targets) then 1 else 0)
  {
    assert (results + [x])[..|results|] == results;
  }

  /** Every propagated result responded, so there are never more propagated than responsive results. */
  lemma {:induction false} PropagatedAtMostResponsive(results: seq<QueryResult>, targets: seq<string>)
    ensures CountWhere(results, Propagated, targets) <= CountWhere(results, Responsive, targets)
    decreases |results|
  {
    if results != [] {
      PropagatedAtMostResponsive(results[..|results| - 1], targets);
    }
  }

  /** Every result that responded shows a target nameserver. */
  predicate AllResponsivePropagated(results: seq<QueryResult>, targets: seq<string>) {
    forall i :: 0 <= i < |results| && results[i].success ==> Classify(results[i], targets) == Cloudflare
  }

  /** The two counters agree iff every result that responded shows a target nameserver. */
  lemma {:induction false} AllPropagatedIff(results: seq<QueryResult>, targets: seq<string>)
    ensures CountWhere(results, Propagated, targets) == CountWhere(results, Responsive, targets) <==>
              AllResponsivePropagated(results, targets)
    decreases |results|
  {
    if results != [] {
      var n := |results| - 1;
      var init := results[..n];
      AllPropagatedIff(init, targets);
      PropagatedAtMostResponsive(init, targets);
      forall i | 0 <= i < n ensures init[i] == results[i] { }
    }
  }

  /** No responsive result at all iff every query failed. */
  lemma {:induction false} NoneResponsiveIff(results: seq<QueryResult>, targets: seq<string>)
    ensures CountWhere(results, Responsive, targets) == 0 <==> forall i :: 0 <= i < |results| ==> !results[i].success
    decreases |results|
  {
    if results != [] {
      var n := |results| - 1;
      var init := results[..n];
      NoneResponsiveIff(init, targets);
      forall i | 0 <= i < n ensures init[i] == results[i] { }
    }
  }

  /** The counter summed region by region, over the groups of `results`. */
  function SumGroups(results: seq<QueryResult>, regions: seq<string>, c: Counter, targets: seq<string>): nat
    decreases |regions|
  {
    if regions == [] then 0
    else SumGroups(results, regions[..|regions| - 1], c, targets) + CountWhere(Group(results, regions[|regions| - 1]), c, targets)
  }

  lemma GroupSnoc(results: seq<QueryResult>, x: QueryResult, region: string)
    ensures Group(results + [x], region) == if x.region == region then Group(results, region) + [x] else Group(results, region)
  {
    assert (results + [x])[..|results|] == results;
  }

  /** One more result adds to the sum over distinct regions only through its own region. */
  lemma {:induction false} SumGroupsSnoc(results: seq<QueryResult>, x: QueryResult, regions: seq<string>, c: Counter, targets: seq<string>)
    requires forall i, j :: 0 <= i < j < |regions| ==> regions[i] != regions[j]
    ensures SumGroups(results + [x], regions, c, targets)
         == SumGroups(results, regions, c, targets) + (if x.region in regions && Counted(c, x, targets) then 1 else 0)
    decreases |regions|
  {
    if regions != [] {
      var n := |regions| - 1;
      var init := regions[..n];
      var last := regions[n];
      assert regions == init + [last];
      SumGroupsSnoc(results, x, init, c, targets);
      GroupSnoc(results, x, last);
      CountSnoc(Group(results, last), x, c, targets);
      forall k | 0 <= k < |init| ensures init[k] != last {
        assert init[k] == regions[k];
      }
    }
  }

  /** A result of a region not seen before opens a group of its own. */
  lemma SumGroupsNewRegion(results: seq<QueryResult>, x: QueryResult, c: Counter, targets: seq<string>)
    requires x.region !in Regions(results)
    ensures SumGroups(results + [x], Regions(results) + [x.region], c, targets)
         == SumGroups(results + [x], Regions(results), c, targets) + (if Counted(c, x, targets) then 1 else 0)
  {
    var rs := Regions(results);
    assert (rs + [x.region])[..|rs|] == rs;
    GroupOfAbsentRegion(results, x.region);
    GroupSnoc(results, x, x.region);
    CountSnoc([], x, c, targets);
    assert [] + [x] == [x];
  }

  /** Counting group by group, over the regions in order of appearance, counts every result once. */
  lemma {:induction false} GroupedCountsAreCounts(results: seq<QueryResult>, c: Counter, targets: seq<string>)
    ensures SumGroups(results, Regions(results), c, targets) == CountWhere(results, c, targets)
    decreases |results|
  {
    if results != [] {
      var n := |results| - 1;
      var init := results[..n];
      var x := results[n];
      assert results == init + [x];
      GroupedCountsAreCounts(init, c, targets);
      var rs := Regions(init);
      SumGroupsSnoc(init, x, rs, c, targets);
      CountSnoc(init, x, c, targets);
      if x.region in rs {
        assert Regions(results) == rs;
      } else {
        assert Regions(results) == rs + [x.region];
        SumGroupsNewRegion(init, x, c, targets);
      }
    }
  }

  lemma SumGroupsStep(results: seq<QueryResult>, regions: seq<string>, k: nat, c: Counter, targets: seq<string>)
    requires k < |regions|
    ensures SumGroups(results, regions[..k + 1], c, targets)
         == SumGroups(results, regions[..k], c, targets) + CountWhere(Group(results, regions[k]), c, targets)
  {
    assert regions[..k + 1][..k] == regions[..k];
  }

  lemma GroupOfRegion(results: seq<QueryResult>, region: string)
    requires region in Regions(results)
    ensures region in GroupMap(results) && GroupMap(results)[region] == Group(results, region)
  {
    GroupMapIsGrouping(results);
  }

  /** The inner counting loop, over the results of one region. */
  method CountRegion(regionResults: seq<QueryResult>, targets: seq<string>)
    returns (cloudflarePropagated: nat, totalResponsive: nat)
    ensures cloudflarePropagated == CountWhere(regionResults, Propagated, targets)
    ensures totalResponsive == CountWhere(regionResults, Responsive, targets)
  {
    cloudflarePropagated := 0;
    totalResponsive := 0;
    var j := 0;
    while j < |regionResults|
      invariant 0 <= j <= |regionResults|
      invariant cloudflarePropagated == CountWhere(regionResults[..j], Propagated, targets)
      invariant totalResponsive == CountWhere(regionResults[..j], Responsive, targets)
    {
      var res := regionResults[j];
      assert regionResults[..j + 1] == regionResults[..j] + [res];
      CountSnoc(regionResults[..j], res, Propagated, targets);
      CountSnoc(regionResults[..j], res, Responsive, targets);
      if res.success {
        totalResponsive := totalResponsive + 1;
      }
      if Classify(res, targets) == Cloudflare {
        cloudflarePropagated := cloudflarePropagated + 1;
      }
      j := j + 1;
    }
    assert regionResults[..j] == regionResults;
  }

  /**
    The counting loops of the dashboard: over the regions in order of appearance, then over
    each region's results (`CountRegion`). The counters come out as counts over all results.
   */
  method DashboardCounts(results: seq<QueryResult>, targets: seq<string>)
    returns (cloudflarePropagated: nat, totalResponsive: nat)
    ensures cloudflarePropagated == CountWhere(results, Propagated, targets)
    ensures totalResponsive == CountWhere(results, Responsive, targets)
  {
    var regions, groups := GroupByRegion(results);
    cloudflarePropagated := 0;
    totalResponsive := 0;
    var k := 0;
    while k < |regions|
      invariant 0 <= k <= |regions|
      invariant cloudflarePropagated == SumGroups(results, regions[..k], Propagated, targets)
      invariant totalResponsive == SumGroups(results, regions[..k], Responsive, targets)
    {
      SumGroupsStep(results, regions, k, Propagated, targets);
      SumGroupsStep(results, regions, k, Responsive, targets);
      GroupOfRegion(results, regions[k]);
      var regionResults := groups[regions[k]];
      var p, r := CountRegion(regionResults, targets);
      cloudflarePropagated := cloudflarePropagated + p;
      totalResponsive := totalResponsive + r;
      k := k + 1;
    }
    assert regions[..k] == regions;
    GroupedCountsAreCounts(results, Propagated, targets);
    GroupedCountsAreCounts(results, Responsive, targets);
  }

  const BarWidth: nat := 50
  const FullCell: char := '\U{2588}'
  const EmptyCell: char := '\U{2591}'

  /** `int(bar_width * propagation_pct / 100)`: the whole cells of 50 the propagated share fills. */
  function FilledCells(propagated: nat, responsive: nat): (f: nat)
    ensures responsive == 0 ==> f == 0
    ensures responsive > 0 ==> f * responsive <= BarWidth * propagated < (f + 1) * responsive
  {
    if responsive > 0 then BarWidth * propagated / responsive else 0
  }

  lemma TimesMonotone(a: nat, b: nat, t: nat)
    requires a <= b
    ensures a * t <= b * t
  {
    assert b * t == a * t + (b - a) * t;
  }

  lemma LessTimes(a: nat, b: nat, t: nat)
    requires a * t < b * t
    ensures a < b
  {
    if b <= a {
      TimesMonotone(b, a, t);
      assert false;
    }
  }

  /** The bar is never overfull, and it is full exactly when every responsive resolver is propagated. */
  lemma FilledCellsBounds(propagated: nat, responsive: nat)
    requires propagated <= responsive
    ensures FilledCells(propagated, responsive) <= BarWidth
    ensures FilledCells(propagated, responsive) == BarWidth <==> responsive > 0 && propagated == responsive
  {
    if responsive > 0 {
      var f := FilledCells(propagated, responsive);
      var t := responsive;
      TimesMonotone(propagated, t, BarWidth);
      assert f * t < (BarWidth + 1) * t;
      LessTimes(f, BarWidth + 1, t);
      if propagated == t {
        assert BarWidth * t < (f + 1) * t;
        LessTimes(BarWidth, f + 1, t);
      }
      if f == BarWidth {
        assert BarWidth * t <= BarWidth * propagated;
      }
    }
  }

  /** More propagated resolvers never fill fewer cells. */
  lemma FilledCellsMonotone(m1: nat, m2: nat, responsive: nat)
    requires m1 <= m2
    ensures FilledCells(m1, responsive) <= FilledCells(m2, responsive)
  {
    if responsive > 0 {
      var f1 := FilledCells(m1, responsive);
      var f2 := FilledCells(m2, responsive);
      assert f1 * responsive < (f2 + 1) * responsive by {
        assert BarWidth * m1 <= BarWidth * m2;
      }
      LessTimes(f1, f2 + 1, responsive);
    }
  }

  /** `"█" * filled_width + "░" * (bar_width - filled_width)`. */
  function Bar(propagated: nat, responsive: nat): (bar: string)
    ensures propagated <= responsive ==> |bar| == BarWidth
    ensures forall k :: 0 <= k < |bar| ==> (bar[k] == FullCell <==> k < FilledCells(propagated, responsive))
    ensures forall k :: 0 <= k < |bar| ==> (bar[k] == EmptyCell <==> k >= FilledCells(propagated, responsive))
  {
    var f := FilledCells(propagated, responsive);
    var bar := Repeat(FullCell, f) + Repeat(EmptyCell, if f <= BarWidth then BarWidth - f else 0);
    if propagated <= responsive then FilledCellsBounds(propagated, responsive); bar else bar
  }

  /** What the summary says about completion. */
  datatype Estimate = Remaining(hours: string) | Complete | NotDetected

  /**
    The estimate chain: for a share strictly between 0 and 100 percent, a range of hours by
    the bands below 30, 60 and 90 percent; complete at 100 percent; otherwise nothing seen yet.
   */
  function EstimateOf(propagated: nat, responsive: nat): (e: Estimate) {
    if responsive > 0 && 0 < propagated < responsive then
      if 100 * propagated < 30 * responsive then Remaining("24-48")
      else if 100 * propagated < 60 * responsive then Remaining("12-24")
      else if 100 * propagated < 90 * responsive then Remaining("4-12")
      else Remaining("1-4")
    else if responsive > 0 && propagated >= responsive then Complete
    else NotDetected
  }

  /** How far along an estimate says propagation is. */
  function Progress(e: Estimate): nat {
    match e
    case NotDetected => 0
    case Remaining(hours) =>
      if hours == "24-48" then 1 else if hours == "12-24" then 2 else if hours == "4-12" then 3 else 4
    case Complete => 5
  }

  /** The estimate says complete iff the bar is full, and nothing detected iff the count is zero. */
  lemma EstimateAgreesWithBar(propagated: nat, responsive: nat)
    requires propagated <= responsive
    ensures EstimateOf(propagated, responsive) == Complete <==> FilledCells(propagated, responsive) == BarWidth
    ensures EstimateOf(propagated, responsive) == NotDetected <==> propagated == 0
  {
    FilledCellsBounds(propagated, responsive);
  }

  /** With the same responsive count, more propagated resolvers never give a longer estimate. */
  lemma EstimateMonotone(m1: nat, m2: nat, responsive: nat)
    requires m1 <= m2 <= responsive
    ensures Progress(EstimateOf(m1, responsive)) <= Progress(EstimateOf(m2, responsive))
  {
  }

  /** The propagation note is shown below 100 percent, that is, unless the estimate is complete. */
  predicate ShowsNote(propagated: nat, responsive: nat) {
    !(responsive > 0 && 100 * propagated >= 100 * responsive)
  }

  lemma NoteIffIncomplete(propagated: nat, responsive: nat)
    ensures ShowsNote(propagated, responsive) <==> EstimateOf(propagated, responsive) != Complete
  {
  }
}
