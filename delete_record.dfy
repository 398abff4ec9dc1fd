/**
  `11_delete_dns_check_record.py`: read the test record's name, type and content from
  the record file, look the record up by name and type, keep the entries whose
  content equals the configured content, and delete by id when exactly one remains.
 */
module DeleteRecord {
  import opened Wrappers
  import opened Text
  import opened ConfigFile
  import SplitConfig
  import opened Registrar

  const RequiredKeys: seq<string> := ["RECORD_NAME", "RECORD_TYPE", "RECORD_CONTENT"]

  /** `load_record_config` of the delete script. */
  method LoadRecordConfig(lines: seq<string>) returns (r: Result<Config, ConfigError>)
    ensures r.Ok? <==> "RECORD_NAME" in Fold(lines, SplitConfig.ParseLine)
                       && "RECORD_TYPE" in Fold(lines, SplitConfig.ParseLine)
                       && "RECORD_CONTENT" in Fold(lines, SplitConfig.ParseLine)
    ensures r.Ok? ==> r.value == Fold(lines, SplitConfig.ParseLine)
    ensures r.Err? ==> r.error == MissingRequiredKeys(RequiredKeys)
  {
    var config := LoadEntries(lines, SplitConfig.ParseLine);
    r := CheckRequired(config, RequiredKeys);
    assert "RECORD_NAME" in RequiredKeys && "RECORD_TYPE" in RequiredKeys && "RECORD_CONTENT" in RequiredKeys;
    assert forall k :: k in RequiredKeys ==> k == "RECORD_NAME" || k == "RECORD_TYPE" || k == "RECORD_CONTENT";
  }

  /** `/dns/retrieveByNameType/{domain}/{record_type}/{name}`. */
  function LookupEndpoint(domain: string, recordType: string, name: string): string {
    Path(["dns", "retrieveByNameType", domain, recordType, name])
  }

  /** `/dns/delete/{domain}/{record_id}`. */
  function DeleteEndpoint(domain: string, id: string): string {
    Path(["dns", "delete", domain, id])
  }

  /** The lookup path is the f-string of the source. */
  lemma LookupEndpointText(domain: string, recordType: string, name: string)
    ensures LookupEndpoint(domain, recordType, name)
         == "/dns/retrieveByNameType/" + domain + "/" + recordType + "/" + name
  {
    Path5("dns", "retrieveByNameType", domain, recordType, name);
  }

  /** A lookup path names one domain, type and record name: it can be read back. */
  lemma LookupEndpointInjective(d1: string, t1: string, n1: string, d2: string, t2: string, n2: string)
    requires '/' !in d1 && '/' !in t1 && '/' !in n1 && '/' !in d2 && '/' !in t2 && '/' !in n2
    requires LookupEndpoint(d1, t1, n1) == LookupEndpoint(d2, t2, n2)
    ensures d1 == d2 && t1 == t2 && n1 == n2
  {
    var s1 := ["dns", "retrieveByNameType", d1, t1, n1];
    var s2 := ["dns", "retrieveByNameType", d2, t2, n2];
    assert forall k :: 0 <= k < |s1| ==> '/' !in s1[k];
    assert forall k :: 0 <= k < |s2| ==> '/' !in s2[k];
    PathInjective(s1, s2);
    assert s1[2] == s2[2] && s1[3] == s2[3] && s1[4] == s2[4];
  }

  lemma DeleteEndpointText(domain: string, id: string)
    ensures DeleteEndpoint(domain, id) == "/dns/delete/" + domain + "/" + id
  {
    Path4("dns", "delete", domain, id);
  }

  /** Different records, or the same id in different domains, are deleted through different paths. */
  lemma DeleteEndpointInjective(d1: string, id1: string, d2: string, id2: string)
    requires '/' !in d1 && '/' !in id1 && '/' !in d2 && '/' !in id2
    requires DeleteEndpoint(d1, id1) == DeleteEndpoint(d2, id2)
    ensures d1 == d2 && id1 == id2
  {
    var s1 := ["dns", "delete", d1, id1];
    var s2 := ["dns", "delete", d2, id2];
    assert forall k :: 0 <= k < |s1| ==> '/' !in s1[k];
    assert forall k :: 0 <= k < |s2| ==> '/' !in s2[k];
    PathInjective(s1, s2);
    assert s1[2] == s2[2] && s1[3] == s2[3];
  }

  /** `content_filter is None or record.get("content") == content_filter`. */
  predicate ContentMatches(record: DnsRecord, filter: Option<string>) {
    filter.None? || record.content == filter
  }

  /** The records kept by the filter, in their order. */
  function Matching(records: seq<DnsRecord>, filter: Option<string>): (m: seq<DnsRecord>)
    ensures |m| <= |records|
    ensures forall r :: r in m <==> r in records && ContentMatches(r, filter)
    decreases |records|
  {
    if records == [] then []
    else
      var rest := Matching(records[..|records| - 1], filter);
      var last := records[|records| - 1];
      assert records == records[..|records| - 1] + [last];
      if ContentMatches(last, filter) then rest + [last] else rest
  }

  /** Without a filter every record is kept. */
  lemma {:induction false} MatchingWithoutFilter(records: seq<DnsRecord>)
    ensures Matching(records, None) == records
    decreases |records|
  {
    if records != [] {
      MatchingWithoutFilter(records[..|records| - 1]);
    }
  }

  /** Exactly one kept record: it stands at some index and no other record passes the filter. */
  lemma {:induction false} SingleMatch(records: seq<DnsRecord>, filter: Option<string>)
    requires |Matching(records, filter)| == 1
    ensures exists i ::
              && 0 <= i < |records|
              && Matching(records, filter) == [records[i]]
              && (forall j :: 0 <= j < |records| && j != i ==> !ContentMatches(records[j], filter))
    decreases |records|
  {
    var n := |records| - 1;
    var init := records[..n];
    var last := records[n];
    if ContentMatches(last, filter) {
      assert Matching(records, filter) == Matching(init, filter) + [last];
      assert |Matching(init, filter)| == 0;
      forall j | 0 <= j < n ensures !ContentMatches(records[j], filter) {
        assert init[j] == records[j];
        assert records[j] !in Matching(init, filter);
      }
      assert Matching(records, filter) == [records[n]];
    } else {
      SingleMatch(init, filter);
      var i :| 0 <= i < n && Matching(init, filter) == [init[i]]
        && (forall j :: 0 <= j < n && j != i ==> !ContentMatches(init[j], filter));
      assert init[i] == records[i];
      forall j | 0 <= j < |records| && j != i ensures !ContentMatches(records[j], filter) {
        if j < n {
          assert init[j] == records[j];
        }
      }
    }
  }

  /** Two or more kept records iff two different records pass the filter. */
  lemma {:induction false} SeveralMatches(records: seq<DnsRecord>, filter: Option<string>)
    ensures |Matching(records, filter)| >= 2 <==>
      exists i, j :: 0 <= i < j < |records| && ContentMatches(records[i], filter) && ContentMatches(records[j], filter)
    decreases |records|
  {
    if records != [] {
      var n := |records| - 1;
      var init := records[..n];
      SeveralMatches(init, filter);
      forall k | 0 <= k < n ensures init[k] == records[k] { }
      if ContentMatches(records[n], filter) {
        if |Matching(init, filter)| >= 1 {
          var r := Matching(init, filter)[0];
          assert r in Matching(init, filter);
          var i :| 0 <= i < n && init[i] == r;
          assert ContentMatches(records[i], filter) && ContentMatches(records[n], filter);
        } else {
          forall i | 0 <= i < n ensures !ContentMatches(records[i], filter) {
            assert init[i] !in Matching(init, filter);
          }
        }
      } else {
        assert Matching(records, filter) == Matching(init, filter);
      }
    }
  }

  /**
    `get_dns_record_id`, given the reply of the lookup: the id of the one record left by the
    filter, and None when the lookup failed or zero or several records are left.
   */
  method GetDnsRecordId(reply: ApiReply, filter: Option<string>) returns (id: Option<string>)
    ensures RetrievedRecords(reply).None? ==> id.None?
    ensures RetrievedRecords(reply).Some? ==>
              var m := Matching(RetrievedRecords(reply).value, filter);
              id == if |m| == 1 then m[0].id else None
    ensures RetrievedRecords(reply).Some? && id.Some? ==>
              var records := RetrievedRecords(reply).value;
              exists i :: && 0 <= i < |records| && ContentMatches(records[i], filter) && id == records[i].id
                          && forall j :: 0 <= j < |records| && j != i ==> !ContentMatches(records[j], filter)
  {
    if !(reply.Reply? && reply.status == Some("SUCCESS") && reply.records.Some?) {
      return None;
    }
    var records := reply.records.value;
    var matching: seq<DnsRecord> := [];
    var i := 0;
    while i < |records|
      invariant 0 <= i <= |records|
      invariant matching == Matching(records[..i], filter)
    {
      assert records[..i + 1][..i] == records[..i];
      if filter.None? || records[i].content == filter {
        matching := matching + [records[i]];
      }
      i := i + 1;
    }
    assert records[..|records|] == records;
    if |matching| == 1 {
      SingleMatch(records, filter);
      id := matching[0].id;
    } else {
      id := None;
    }
  }

  /** `if record_id_to_delete:` the delete path for a present, non-empty id. */
  function DeletionTarget(domain: string, id: Option<string>): (e: Option<string>)
    ensures e.Some? <==> id.Some? && id.value != []
    ensures e.Some? ==> e.value == DeleteEndpoint(domain, id.value)
  {
    if id.Some? && id.value != [] then Some(DeleteEndpoint(domain, id.value)) else None
  }

  /** A run of the script: the config error, or the delete path it calls (None to skip deletion). */
  datatype Plan = Plan(lookup: string, delete: Option<string>)

  /**
    The main block: load the config, look the record up with `lookup` (the reply for each
    path) filtering on RECORD_CONTENT, and delete the one record found.
   */
  method Run(lines: seq<string>, domain: string, lookup: string -> ApiReply) returns (r: Result<Plan, ConfigError>)
    ensures r.Err? <==> !("RECORD_NAME" in Fold(lines, SplitConfig.ParseLine)
                          && "RECORD_TYPE" in Fold(lines, SplitConfig.ParseLine)
                          && "RECORD_CONTENT" in Fold(lines, SplitConfig.ParseLine))
    ensures r.Ok? ==>
              var config := Fold(lines, SplitConfig.ParseLine);
              var path := LookupEndpoint(domain, config["RECORD_TYPE"], config["RECORD_NAME"]);
              && r.value.lookup == path
              && (r.value.delete.Some? <==>
                    exists rec :: RetrievedRecords(lookup(path)).Some?
                      && Matching(RetrievedRecords(lookup(path)).value, Some(config["RECORD_CONTENT"])) == [rec]
                      && rec.id.Some? && rec.id.value != [])
              && (r.value.delete.Some? ==>
                    exists rec :: Matching(RetrievedRecords(lookup(path)).value, Some(config["RECORD_CONTENT"])) == [rec]
                      && r.value.delete == Some(DeleteEndpoint(domain, rec.id.value)))
  {
    var loaded := LoadRecordConfig(lines);
    if loaded.Err? {
      return Err(loaded.error);
    }
    var config := loaded.value;
    var path := LookupEndpoint(domain, config["RECORD_TYPE"], config["RECORD_NAME"]);
    var id := GetDnsRecordId(lookup(path), Some(config["RECORD_CONTENT"]));
    r := Ok(Plan(path, DeletionTarget(domain, id)));
    if RetrievedRecords(lookup(path)).Some? {
      var m := Matching(RetrievedRecords(lookup(path)).value, Some(config["RECORD_CONTENT"]));
      if |m| == 1 {
        assert m == [m[0]];
      }
    }
  }
}
