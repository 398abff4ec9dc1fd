/**
  `verify_nameserver_propagation`: query every primary resolver, group the results by
  region, query one backup resolver for each region where no primary resolver gave an
  answer, and return all results sorted by (region, server). The queries are the
  sequential map `DigQuery.QueryAll` over a given outcome per resolver.
 */
module Propagation {
  import opened Wrappers
  import opened Resolvers
  import opened DigQuery
  import opened ResultOrder

  /** The regions of `results` in order of first appearance: the keys of the grouping dictionary. */
  function Regions(results: seq<QueryResult>): (rs: seq<string>)
    ensures forall r :: r in rs <==> exists i :: 0 <= i < |results| && results[i].region == r
    ensures forall i, j :: 0 <= i < j < |rs| ==> rs[i] != rs[j]
    ensures |rs| <= |results|
    decreases |results|
  {
    if results == [] then []
    else
      var init := results[..|results| - 1];
      var rs := Regions(init);
      var last := results[|results| - 1].region;
      assert forall i :: 0 <= i < |init| ==> init[i] == results[i];
      if last in rs then rs else rs + [last]
  }

  /** Some result before index `q` is in `region`. */
  predicate SeenBefore(results: seq<QueryResult>, q: int, region: string) {
    exists p :: 0 <= p < q && p < |results| && results[p].region == region
  }

  /**
    The regions come in order of first appearance: before any result of a later region
    there is a result of every earlier one.
   */
  lemma {:induction false} RegionsInFirstAppearanceOrder(results: seq<QueryResult>)
    ensures forall a, b, q :: 0 <= a < b < |Regions(results)| && 0 <= q < |results| && results[q].region == Regions(results)[b]
              ==> SeenBefore(results, q, Regions(results)[a])
    decreases |results|
  {
    if results != [] {
      var n := |results| - 1;
      var init := results[..n];
      var x := results[n];
      RegionsInFirstAppearanceOrder(init);
      var ri := Regions(init);
      var rs := Regions(results);
      assert forall i :: 0 <= i < n ==> init[i] == results[i];
      assert rs == if x.region in ri then ri else ri + [x.region];
      forall a, b, q | 0 <= a < b < |rs| && 0 <= q < |results| && results[q].region == rs[b]
        ensures SeenBefore(results, q, rs[a])
      {
        assert rs[a] == ri[a];
        if b < |ri| {
          var q' := q;
          if q == n {
            assert rs[b] == ri[b];
            q' :| 0 <= q' < n && init[q'].region == ri[b];
          }
          assert 0 <= q' < n && q' <= q && init[q'].region == ri[b];
          assert SeenBefore(init, q', ri[a]);
          var p :| 0 <= p < q' && p < n && init[p].region == ri[a];
          assert results[p].region == rs[a];
        } else {
          assert rs[b] == x.region && x.region !in ri;
          assert q == n;
          assert rs[a] in ri;
          var p :| 0 <= p < n && init[p].region == ri[a];
          assert results[p].region == rs[a];
        }
      }
    }
  }

  /** The results of one region, in their order. */
  function Group(results: seq<QueryResult>, region: string): (g: seq<QueryResult>)
    ensures forall x :: x in g <==> x in results && x.region == region
    ensures |g| <= |results|
    decreases |results|
  {
    if results == [] then []
    else
      var init := results[..|results| - 1];
      var last := results[|results| - 1];
      assert results == init + [last];
      if last.region == region then Group(init, region) + [last] else Group(init, region)
  }

  /** The grouping dictionary, built one result at a time. */
  function GroupMap(results: seq<QueryResult>): (m: map<string, seq<QueryResult>>)
    decreases |results|
  {
    if results == [] then map[]
    else
      var m := GroupMap(results[..|results| - 1]);
      var x := results[|results| - 1];
      m[x.region := (if x.region in m then m[x.region] else []) + [x]]
  }

  /** A region no result is in has an empty group. */
  lemma GroupOfAbsentRegion(results: seq<QueryResult>, region: string)
    requires region !in Regions(results)
    ensures Group(results, region) == []
  {
  }

  /** The dictionary maps exactly the regions of the results, each to its group. */
  lemma {:induction false} GroupMapIsGrouping(results: seq<QueryResult>)
    ensures forall r :: r in GroupMap(results) <==> r in Regions(results)
    ensures forall r :: r in GroupMap(results) ==> GroupMap(results)[r] == Group(results, r)
    decreases |results|
  {
    if results != [] {
      var init := results[..|results| - 1];
      var x := results[|results| - 1];
      GroupMapIsGrouping(init);
      assert results == init + [x];
      if x.region !in Regions(init) {
        GroupOfAbsentRegion(init, x.region);
      }
    }
  }

  /** Every result is in the group of its own region, and only there. */
  lemma GroupsPartition(results: seq<QueryResult>, i: nat, region: string)
    requires i < |results|
    ensures results[i] in Group(results, region) <==> results[i].region == region
    ensures results[i].region in GroupMap(results)
  {
    GroupMapIsGrouping(results);
  }

  lemma PrefixStep(results: seq<QueryResult>, i: nat)
    requires i < |results|
    ensures results[..i + 1][..i] == results[..i] && results[..i + 1][i] == results[i]
  {
  }

  /** The grouping loop: `by_region.setdefault(result["region"], []).append(result)` in result order. */
  method GroupByRegion(results: seq<QueryResult>) returns (regions: seq<string>, groups: map<string, seq<QueryResult>>)
    ensures regions == Regions(results)
    ensures groups == GroupMap(results)
  {
    regions := [];
    groups := map[];
    var i := 0;
    while i < |results|
      invariant 0 <= i <= |results|
      invariant regions == Regions(results[..i])
      invariant groups == GroupMap(results[..i])
    {
      PrefixStep(results, i);
      GroupMapIsGrouping(results[..i]);
      var region := results[i].region;
      assert region in groups <==> region in regions;
      if region !in groups {
        regions := regions + [region];
      }
      groups := groups[region := (if region in groups then groups[region] else []) + [results[i]]];
      i := i + 1;
    }
    assert results[..|results|] == results;
  }

  /** Some result succeeded with at least one answer. */
  predicate Usable(results: seq<QueryResult>) {
    exists k | 0 <= k < |results| :: results[k].success && results[k].answers != []
  }

  predicate NeedsBackup(dir: Directory, region: string, group: seq<QueryResult>) {
    !Usable(group) && BackupsOf(dir.backup, region) != []
  }

  /** The group of `region` in the dictionary, empty when the region is not a key. */
  function GroupIn(groups: map<string, seq<QueryResult>>, region: string): seq<QueryResult> {
    if region in groups then groups[region] else []
  }

  /** The regions, in dictionary order, that get a backup query. */
  function NeedyOf(dir: Directory, regions: seq<string>, groups: map<string, seq<QueryResult>>): (needy: seq<string>)
    ensures |needy| <= |regions|
    decreases |regions|
  {
    if regions == [] then []
    else
      var init := regions[..|regions| - 1];
      var last := regions[|regions| - 1];
      if NeedsBackup(dir, last, GroupIn(groups, last)) then NeedyOf(dir, init, groups) + [last] else NeedyOf(dir, init, groups)
  }

  /** A region gets a backup iff it is one of the regions and needs one. */
  lemma {:induction false} NeedyOfMembers(dir: Directory, regions: seq<string>, groups: map<string, seq<QueryResult>>)
    ensures forall r :: r in NeedyOf(dir, regions, groups) <==> r in regions && NeedsBackup(dir, r, GroupIn(groups, r))
    decreases |regions|
  {
    if regions != [] {
      var init := regions[..|regions| - 1];
      var last := regions[|regions| - 1];
      assert regions == init + [last];
      NeedyOfMembers(dir, init, groups);
    }
  }

  /** The regions of the primary results that get a backup query. */
  function NeedyRegions(dir: Directory, primary: seq<QueryResult>): seq<string> {
    NeedyOf(dir, Regions(primary), GroupMap(primary))
  }

  /**
    A region gets a backup query iff some primary result is in it, none of its primary results
    succeeded with an answer, and it has a non-empty backup list.
   */
  lemma NeedyRegionsIff(dir: Directory, primary: seq<QueryResult>, region: string)
    ensures region in NeedyRegions(dir, primary) <==>
              && (exists i :: 0 <= i < |primary| && primary[i].region == region)
              && !Usable(Group(primary, region))
              && BackupsOf(dir.backup, region) != []
  {
    GroupMapIsGrouping(primary);
    var m := GroupMap(primary);
    NeedyOfMembers(dir, Regions(primary), m);
    assert region in NeedyRegions(dir, primary) <==>
             region in Regions(primary) && NeedsBackup(dir, region, GroupIn(m, region));
    if region in Regions(primary) {
      assert m[region] == Group(primary, region);
    }
  }

  /** No region gets two backup queries. */
  lemma {:induction false} NeedyDistinct(dir: Directory, regions: seq<string>, groups: map<string, seq<QueryResult>>)
    requires forall i, j :: 0 <= i < j < |regions| ==> regions[i] != regions[j]
    ensures forall i, j :: 0 <= i < j < |NeedyOf(dir, regions, groups)| ==>
              NeedyOf(dir, regions, groups)[i] != NeedyOf(dir, regions, groups)[j]
    decreases |regions|
  {
    if regions != [] {
      var init := regions[..|regions| - 1];
      var last := regions[|regions| - 1];
      NeedyDistinct(dir, init, groups);
      NeedyOfMembers(dir, init, groups);
      forall k | 0 <= k < |init| ensures init[k] != last {
        assert init[k] == regions[k];
      }
      assert last !in NeedyOf(dir, init, groups);
    }
  }

  /** What one more region does to the list of regions needing a backup. */
  lemma NeedyStep(dir: Directory, regions: seq<string>, groups: map<string, seq<QueryResult>>, i: nat)
    requires i < |regions| && regions[i] in groups
    ensures !Usable(groups[regions[i]]) && BackupsOf(dir.backup, regions[i]) != [] ==>
              NeedyOf(dir, regions[..i + 1], groups) == NeedyOf(dir, regions[..i], groups) + [regions[i]]
    ensures Usable(groups[regions[i]]) || BackupsOf(dir.backup, regions[i]) == [] ==>
              NeedyOf(dir, regions[..i + 1], groups) == NeedyOf(dir, regions[..i], groups)
  {
    var prefix := regions[..i + 1];
    assert prefix[..i] == regions[..i];
  }

  /** `chosen[i]` is a backup resolver of region `needy[i]`, one for each. */
  predicate ChosenFrom(dir: Directory, chosen: seq<Server>, needy: seq<string>) {
    && |chosen| == |needy|
    && forall i :: 0 <= i < |chosen| ==> chosen[i] in BackupsOf(dir.backup, needy[i])
  }

  lemma ChosenFromSnoc(dir: Directory, chosen: seq<Server>, needy: seq<string>, pick: Server, region: string)
    requires ChosenFrom(dir, chosen, needy) && pick in BackupsOf(dir.backup, region)
    ensures ChosenFrom(dir, chosen + [pick], needy + [region])
  {
    var c, n := chosen + [pick], needy + [region];
    forall i | 0 <= i < |c| ensures c[i] in BackupsOf(dir.backup, n[i]) {
      if i < |chosen| {
        assert c[i] == chosen[i] && n[i] == needy[i];
      }
    }
  }

  /**
    The selection loop: for each region of the grouping that needs one, `random.choice` of
    its backup list, which here is any element of it.
   */
  method ChooseBackups(dir: Directory, regions: seq<string>, groups: map<string, seq<QueryResult>>)
    returns (chosen: seq<Server>)
    requires forall k :: 0 <= k < |regions| ==> regions[k] in groups
    ensures ChosenFrom(dir, chosen, NeedyOf(dir, regions, groups))
  {
    chosen := [];
    ghost var needy: seq<string> := [];
    var i := 0;
    while i < |regions|
      invariant 0 <= i <= |regions|
      invariant needy == NeedyOf(dir, regions[..i], groups)
      invariant ChosenFrom(dir, chosen, needy)
    {
      NeedyStep(dir, regions, groups, i);
      var region := regions[i];
      if !Usable(groups[region]) {
        var backups := BackupsOf(dir.backup, region);
        if backups != [] {
          assert backups[0] in backups;
          var pick :| pick in backups;
          ChosenFromSnoc(dir, chosen, needy, pick, region);
          chosen := chosen + [pick];
          needy := needy + [region];
        }
      }
      i := i + 1;
    }
    assert regions[..|regions|] == regions;
  }

  /**
    What one cycle returns: the primary results and the results of the chosen backups,
    sorted by (region, server), with one backup from the list of each region that needs one.
   */
  predicate CycleOf(dir: Directory, dig: Server -> DigOutcome, results: seq<QueryResult>, backups: seq<Server>) {
    var primary := QueryAll(dir, Flatten(dir.primary), dig);
    var needy := NeedyRegions(dir, primary);
    && Sorted(results)
    && multiset(results) == multiset(primary + QueryAll(dir, backups, dig))
    && ChosenFrom(dir, backups, needy)
  }

  /** A cycle queries every primary resolver once and at most one backup per region seen. */
  lemma CycleSize(dir: Directory, dig: Server -> DigOutcome, results: seq<QueryResult>, backups: seq<Server>)
    requires CycleOf(dir, dig, results, backups)
    ensures |results| == |Flatten(dir.primary)| + |backups|
    ensures |backups| <= |Regions(QueryAll(dir, Flatten(dir.primary), dig))|
  {
    var primary := QueryAll(dir, Flatten(dir.primary), dig);
    assert |multiset(results)| == |multiset(primary + QueryAll(dir, backups, dig))|;
    GroupMapIsGrouping(primary);
  }

  /** `verify_nameserver_propagation` for one cycle, `dig` giving the outcome of each query. */
  method VerifyPropagation(dir: Directory, dig: Server -> DigOutcome) returns (results: seq<QueryResult>, backups: seq<Server>)
    ensures CycleOf(dir, dig, results, backups)
  {
    var servers := AllPrimaryServers(dir);
    var primary := QueryAll(dir, servers, dig);
    var regions, groups := GroupByRegion(primary);
    GroupMapIsGrouping(primary);
    backups := ChooseBackups(dir, regions, groups);
    assert NeedyOf(dir, regions, groups) == NeedyRegions(dir, primary);
    var backupResults := [];
    if backups != [] {
      backupResults := QueryAll(dir, backups, dig);
    }
    results := SortResults(primary + backupResults);
    SortResultsSorted(primary + backupResults);
  }
}
