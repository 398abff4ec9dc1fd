/**
  The resolver directory of the propagation script: the public DNS resolvers it asks,
  grouped by region, as two ordered tables (primary and backup). A table is an ordered
  list of (region, servers) entries, as the dictionary literals of the source iterate.
 */
module Resolvers {
  import opened Wrappers

  /** `{"name": ..., "ip": ...}`. */
  datatype Server = Server(name: string, ip: string)

  /** One entry of a region table. */
  datatype RegionServers = RegionServers(region: string, servers: seq<Server>)

  type Table = seq<RegionServers>

  /** The two tables the propagation check reads; nothing changes them. */
  datatype Directory = Directory(primary: Table, backup: Table)

  /** A table is a dictionary: no region name appears twice. */
  predicate DistinctRegions(table: Table) {
    forall i, j :: 0 <= i < j < |table| ==> table[i].region != table[j].region
  }

  /** `any(s["ip"] == ip for s in servers)`. */
  predicate Lists(servers: seq<Server>, ip: string) {
    exists k | 0 <= k < |servers| :: servers[k].ip == ip
  }

  /** `next((region for region, servers in table.items() if any(...)), None)`. */
  function FirstRegionListing(table: Table, ip: string): (r: Option<string>)
    ensures r.None? <==> forall i :: 0 <= i < |table| ==> !Lists(table[i].servers, ip)
    ensures r.Some? ==> exists i :: 0 <= i < |table| && table[i].region == r.value && Lists(table[i].servers, ip)
                          && forall j :: 0 <= j < i ==> !Lists(table[j].servers, ip)
    decreases |table|
  {
    if table == [] then None
    else if Lists(table[0].servers, ip) then Some(table[0].region)
    else
      var r := FirstRegionListing(table[1..], ip);
      assert forall i :: 0 < i < |table| ==> table[i] == table[1..][i - 1];
      r
  }

  /** The region of a result: the first primary region listing the IP, else the first backup one, else "Unknown". */
  function RegionOf(dir: Directory, ip: string): string {
    match FirstRegionListing(dir.primary, ip)
    case Some(r) => r
    case None =>
      match FirstRegionListing(dir.backup, ip)
      case Some(r) => r
      case None => "Unknown"
  }

  /** `is_backup`: the IP is in no primary list. */
  predicate IsBackup(dir: Directory, ip: string) {
    forall i | 0 <= i < |dir.primary| :: !Lists(dir.primary[i].servers, ip)
  }

  /** A server the primary table lists is not a backup, and gets the region of the first entry listing it. */
  lemma PrimaryServerRegion(dir: Directory, i: nat, k: nat)
    requires i < |dir.primary| && k < |dir.primary[i].servers|
    requires forall j :: 0 <= j < i ==> !Lists(dir.primary[j].servers, dir.primary[i].servers[k].ip)
    ensures RegionOf(dir, dir.primary[i].servers[k].ip) == dir.primary[i].region
    ensures !IsBackup(dir, dir.primary[i].servers[k].ip)
  {
    var ip := dir.primary[i].servers[k].ip;
    assert Lists(dir.primary[i].servers, ip);
    var r := FirstRegionListing(dir.primary, ip);
    var i' :| 0 <= i' < |dir.primary| && dir.primary[i'].region == r.value && Lists(dir.primary[i'].servers, ip)
      && forall j :: 0 <= j < i' ==> !Lists(dir.primary[j].servers, ip);
    assert i' == i;
  }

  /** A server only the backup table lists is a backup, and gets the first backup region listing it. */
  lemma BackupServerRegion(dir: Directory, i: nat, k: nat)
    requires i < |dir.backup| && k < |dir.backup[i].servers|
    requires IsBackup(dir, dir.backup[i].servers[k].ip)
    requires forall j :: 0 <= j < i ==> !Lists(dir.backup[j].servers, dir.backup[i].servers[k].ip)
    ensures RegionOf(dir, dir.backup[i].servers[k].ip) == dir.backup[i].region
  {
    var ip := dir.backup[i].servers[k].ip;
    assert Lists(dir.backup[i].servers, ip);
    var r := FirstRegionListing(dir.backup, ip);
    var i' :| 0 <= i' < |dir.backup| && dir.backup[i'].region == r.value && Lists(dir.backup[i'].servers, ip)
      && forall j :: 0 <= j < i' ==> !Lists(dir.backup[j].servers, ip);
    assert i' == i;
  }

  /** An IP neither table lists is in region "Unknown" and is a backup. */
  lemma UnlistedServer(dir: Directory, ip: string)
    requires forall i :: 0 <= i < |dir.primary| ==> !Lists(dir.primary[i].servers, ip)
    requires forall i :: 0 <= i < |dir.backup| ==> !Lists(dir.backup[i].servers, ip)
    ensures RegionOf(dir, ip) == "Unknown" && IsBackup(dir, ip)
  {
  }

  /** `table[region]` when `region in table`, else the empty list. */
  function BackupsOf(table: Table, region: string): (s: seq<Server>)
    ensures s != [] ==> exists i :: 0 <= i < |table| && table[i].region == region && table[i].servers == s
    ensures (forall i :: 0 <= i < |table| ==> table[i].region != region) ==> s == []
    ensures forall i ::
              (0 <= i < |table| && table[i].region == region && forall j :: 0 <= j < i ==> table[j].region != region)
              ==> s == table[i].servers
    decreases |table|
  {
    if table == [] then []
    else if table[0].region == region then table[0].servers
    else
      var s := BackupsOf(table[1..], region);
      assert forall i :: 0 < i < |table| ==> table[i] == table[1..][i - 1];
      s
  }

  /** Every server of a table, region by region, in table order. */
  function Flatten(table: Table): (s: seq<Server>)
    ensures forall x :: x in s <==> exists i :: 0 <= i < |table| && x in table[i].servers
    decreases |table|
  {
    if table == [] then []
    else
      var init := table[..|table| - 1];
      var s := Flatten(init) + table[|table| - 1].servers;
      assert forall i :: 0 <= i < |init| ==> init[i] == table[i];
      s
  }

  /** The gathering loop: `all_primary_servers.extend(servers)` for each region in turn. */
  method AllPrimaryServers(dir: Directory) returns (servers: seq<Server>)
    ensures servers == Flatten(dir.primary)
  {
    servers := [];
    var i := 0;
    while i < |dir.primary|
      invariant 0 <= i <= |dir.primary|
      invariant servers == Flatten(dir.primary[..i])
    {
      assert dir.primary[..i + 1][..i] == dir.primary[..i];
      servers := servers + dir.primary[i].servers;
      i := i + 1;
    }
    assert dir.primary[..|dir.primary|] == dir.primary;
  }

  /** `PRIMARY_DNS_SERVERS`. */
  const PrimaryDnsServers: Table := [
    RegionServers("North America", [Server("Cloudflare", "1.1.1.1"), Server("Google", "8.8.8.8"),
                                    Server("OpenDNS US", "208.67.222.222"), Server("Quad9", "9.9.9.9")]),
    RegionServers("Europe", [Server("France DNS", "212.27.40.240"), Server("Germany DNS", "194.150.168.168"),
                             Server("UK DNS", "156.154.70.1")]),
    RegionServers("Asia", [Server("Singapore DNS", "202.136.162.11"), Server("Japan DNS", "203.112.2.4"),
                           Server("Hong Kong DNS", "205.252.144.228")]),
    RegionServers("Oceania", [Server("Australia DNS", "61.8.0.113")]),
    RegionServers("South America", [Server("Brazil DNS", "200.221.11.101")])
  ]

  /** `BACKUP_DNS_SERVERS`. */
  const BackupDnsServers: Table := [
    RegionServers("North America", [Server("Level3", "4.2.2.2"), Server("Verisign", "64.6.64.6"),
                                    Server("Comodo", "8.26.56.26"), Server("AT&T", "68.94.156.1")]),
    RegionServers("Europe", [Server("Swiss DNS", "77.109.138.45"), Server("Dutch DNS", "195.46.39.39"),
                             Server("Italy DNS", "193.70.152.25")]),
    RegionServers("Asia", [Server("India DNS", "210.5.56.108"), Server("Taiwan DNS", "101.101.101.101"),
                           Server("Korea DNS", "164.124.101.2")]),
    RegionServers("Oceania", [Server("NZ DNS", "219.88.200.63"), Server("AU Telstra", "61.9.133.1")]),
    RegionServers("South America", [Server("Argentina DNS", "200.69.193.1"), Server("Colombia DNS", "200.116.213.240")])
  ]

  const DnsServers: Directory := Directory(PrimaryDnsServers, BackupDnsServers)

  /** Every region of the script's backup table has at least one backup resolver. */
  lemma EveryRegionHasBackups(i: nat)
    requires i < |BackupDnsServers|
    ensures BackupsOf(BackupDnsServers, BackupDnsServers[i].region) != []
  {
  }
}
