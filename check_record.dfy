/**
  `12_check_delete_dns_check_record.py`: read the test record's name and type from the
  record file, list every record of the domain and report each one that is the test
  record, accepting the registrar's name with or without the domain appended.
 */
module CheckRecord {
  import opened Wrappers
  import opened Text
  import opened ConfigFile
  import SplitConfig
  import opened Registrar

  const RequiredKeys: seq<string> := ["RECORD_NAME", "RECORD_TYPE"]

  /** `load_record_config` of the check script: RECORD_CONTENT is not required here. */
  method LoadRecordConfig(lines: seq<string>) returns (r: Result<Config, ConfigError>)
    ensures r.Ok? <==> "RECORD_NAME" in Fold(lines, SplitConfig.ParseLine)
                       && "RECORD_TYPE" in Fold(lines, SplitConfig.ParseLine)
    ensures r.Ok? ==> r.value == Fold(lines, SplitConfig.ParseLine)
    ensures r.Err? ==> r.error == MissingRequiredKeys(RequiredKeys)
  {
    var config := LoadEntries(lines, SplitConfig.ParseLine);
    r := CheckRequired(config, RequiredKeys);
    assert "RECORD_NAME" in RequiredKeys && "RECORD_TYPE" in RequiredKeys;
    assert forall k :: k in RequiredKeys ==> k == "RECORD_NAME" || k == "RECORD_TYPE";
  }

  /** `/dns/retrieve/{domain}`. */
  function RetrieveEndpoint(domain: string): string {
    Path(["dns", "retrieve", domain])
  }

  lemma RetrieveEndpointText(domain: string)
    ensures RetrieveEndpoint(domain) == "/dns/retrieve/" + domain
  {
    Path3("dns", "retrieve", domain);
  }

  /** Each domain is listed through its own path. */
  lemma RetrieveEndpointInjective(d1: string, d2: string)
    requires '/' !in d1 && '/' !in d2
    requires RetrieveEndpoint(d1) == RetrieveEndpoint(d2)
    ensures d1 == d2
  {
    var s1 := ["dns", "retrieve", d1];
    var s2 := ["dns", "retrieve", d2];
    assert forall k :: 0 <= k < |s1| ==> '/' !in s1[k];
    assert forall k :: 0 <= k < |s2| ==> '/' !in s2[k];
    PathInjective(s1, s2);
    assert s1[2] == s2[2];
  }

  /** `is_match`: the type is the configured one and the name is the bare or the full name. */
  predicate IsTestRecord(record: DnsRecord, name: string, recordType: string, fullName: string) {
    (record.name == Some(name) || record.name == Some(fullName)) && record.recordType == Some(recordType)
  }

  /** The records the scan reports, in list order. */
  function TestRecords(records: seq<DnsRecord>, name: string, recordType: string, fullName: string): (m: seq<DnsRecord>)
    ensures |m| <= |records|
    ensures forall r :: r in m <==> r in records && IsTestRecord(r, name, recordType, fullName)
    decreases |records|
  {
    if records == [] then []
    else
      var rest := TestRecords(records[..|records| - 1], name, recordType, fullName);
      var last := records[|records| - 1];
      assert records == records[..|records| - 1] + [last];
      if IsTestRecord(last, name, recordType, fullName) then rest + [last] else rest
  }

  /** Nothing is reported iff no record is the test record. */
  lemma TestRecordsEmpty(records: seq<DnsRecord>, name: string, recordType: string, fullName: string)
    ensures TestRecords(records, name, recordType, fullName) == [] <==>
              forall i :: 0 <= i < |records| ==> !IsTestRecord(records[i], name, recordType, fullName)
  {
    var m := TestRecords(records, name, recordType, fullName);
    if m != [] {
      assert m[0] in records;
    }
    forall i | 0 <= i < |records| && IsTestRecord(records[i], name, recordType, fullName)
      ensures m != []
    {
      assert records[i] in m;
    }
  }

  /** The scan keeps every match: duplicates of the test record are all reported. */
  lemma {:induction false} TestRecordsKeepsDuplicates(records: seq<DnsRecord>, r: DnsRecord, name: string, recordType: string, fullName: string)
    requires IsTestRecord(r, name, recordType, fullName)
    ensures |TestRecords(records + [r, r], name, recordType, fullName)| == |TestRecords(records, name, recordType, fullName)| + 2
  {
    var s1 := records + [r];
    var s2 := records + [r, r];
    assert s2[..|s2| - 1] == s1;
    assert s1[..|s1| - 1] == records;
  }

  /**
    The scan loop: `found` is set iff some record is the test record; it does not stop at
    the first match, and `reported` is every match in order.
   */
  method FindTestRecord(records: seq<DnsRecord>, name: string, recordType: string, fullName: string)
    returns (found: bool, reported: seq<DnsRecord>)
    ensures found <==> exists i :: 0 <= i < |records| && IsTestRecord(records[i], name, recordType, fullName)
    ensures reported == TestRecords(records, name, recordType, fullName)
    ensures found <==> reported != []
  {
    found := false;
    reported := [];
    var i := 0;
    while i < |records|
      invariant 0 <= i <= |records|
      invariant reported == TestRecords(records[..i], name, recordType, fullName)
      invariant found <==> exists k :: 0 <= k < i && IsTestRecord(records[k], name, recordType, fullName)
    {
      assert records[..i + 1][..i] == records[..i];
      var apiName := records[i].name;
      var isMatch := (apiName == Some(name) || apiName == Some(fullName)) && records[i].recordType == Some(recordType);
      if isMatch {
        reported := reported + [records[i]];
        found := true;
      }
      i := i + 1;
    }
    assert records[..|records|] == records;
    TestRecordsEmpty(records, name, recordType, fullName);
  }

  /** What a run prints in the end. */
  datatype CheckOutcome =
    | Found(matches: seq<DnsRecord>)
    | NotFound
    | ApiError

  /** The main block: load the config, list the domain's records with `retrieve`, scan them. */
  method Run(lines: seq<string>, domain: string, retrieve: string -> ApiReply) returns (r: Result<CheckOutcome, ConfigError>)
    ensures r.Err? <==> !("RECORD_NAME" in Fold(lines, SplitConfig.ParseLine)
                          && "RECORD_TYPE" in Fold(lines, SplitConfig.ParseLine))
    ensures r.Ok? ==>
              var config := Fold(lines, SplitConfig.ParseLine);
              var name := config["RECORD_NAME"];
              var recordType := config["RECORD_TYPE"];
              var listed := RetrievedRecords(retrieve(RetrieveEndpoint(domain)));
              && (r.value.ApiError? <==> listed.None?)
              && (r.value.Found? <==>
                    && listed.Some?
                    && exists i :: 0 <= i < |listed.value| && IsTestRecord(listed.value[i], name, recordType, FullName(name, domain)))
              && (r.value.Found? ==> r.value.matches == TestRecords(listed.value, name, recordType, FullName(name, domain)))
  {
    var loaded := LoadRecordConfig(lines);
    if loaded.Err? {
      return Err(loaded.error);
    }
    var config := loaded.value;
    var name := config["RECORD_NAME"];
    var recordType := config["RECORD_TYPE"];
    var fullName := FullName(name, domain);
    var response := retrieve(RetrieveEndpoint(domain));
    if response.Reply? && response.status == Some("SUCCESS") && response.records.Some? {
      var found, reported := FindTestRecord(response.records.value, name, recordType, fullName);
      r := Ok(if found then Found(reported) else NotFound);
    } else {
      r := Ok(ApiError);
    }
  }

  /** Whether RECORD_CONTENT is present has no bearing on whether the config loads. */
  lemma ContentNotRequired(lines: seq<string>, raw: string)
    requires SplitConfig.ParseLine(Strip(raw)).Some? && SplitConfig.ParseLine(Strip(raw)).value.0 == "RECORD_CONTENT"
    requires Strip(raw) != [] && Strip(raw)[0] != '#'
    ensures ("RECORD_NAME" in Fold(lines + [raw], SplitConfig.ParseLine) && "RECORD_TYPE" in Fold(lines + [raw], SplitConfig.ParseLine))
        <==> ("RECORD_NAME" in Fold(lines, SplitConfig.ParseLine) && "RECORD_TYPE" in Fold(lines, SplitConfig.ParseLine))
  {
    var e := SplitConfig.ParseLine(Strip(raw)).value;
    AcceptedLineOverwrites(lines, raw, SplitConfig.ParseLine, e.0, e.1);
  }
}
