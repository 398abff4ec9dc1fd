/**
  `09_create_dns_check_record.py`: read the test record's name, type, content and TTL
  with the regular-expression parser and build the create request for the domain.
 */
module CreateRecord {
  import opened Wrappers
  import opened Text
  import opened ConfigFile
  import RegexConfig
  import opened Registrar

  const RequiredKeys: seq<string> := ["RECORD_NAME", "RECORD_TYPE", "RECORD_CONTENT", "RECORD_TTL"]

  /** `load_record_config` of the create script. */
  method LoadRecordConfig(lines: seq<string>) returns (r: Result<Config, ConfigError>)
    ensures r.Ok? <==> "RECORD_NAME" in Fold(lines, RegexConfig.ParseLine)
                       && "RECORD_TYPE" in Fold(lines, RegexConfig.ParseLine)
                       && "RECORD_CONTENT" in Fold(lines, RegexConfig.ParseLine)
                       && "RECORD_TTL" in Fold(lines, RegexConfig.ParseLine)
    ensures r.Ok? ==> r.value == Fold(lines, RegexConfig.ParseLine)
    ensures r.Err? ==> r.error == MissingRequiredKeys(RequiredKeys)
  {
    var config := LoadEntries(lines, RegexConfig.ParseLine);
    r := CheckRequired(config, RequiredKeys);
    assert "RECORD_NAME" in RequiredKeys && "RECORD_TYPE" in RequiredKeys;
    assert "RECORD_CONTENT" in RequiredKeys && "RECORD_TTL" in RequiredKeys;
    assert forall k :: k in RequiredKeys ==>
             k == "RECORD_NAME" || k == "RECORD_TYPE" || k == "RECORD_CONTENT" || k == "RECORD_TTL";
  }

  /** A registrar call: the path and the JSON payload (credentials are added by the client). */
  datatype Request = Request(endpoint: string, payload: map<string, string>)

  /** `create_dns_record`: `/dns/create/{domain}` with name, type, content and ttl (default "600"). */
  function CreateDnsRecord(domain: string, name: string, recordType: string, content: string, ttl: string := "600"): (q: Request)
    ensures q.endpoint == "/dns/create/" + domain
    ensures q.payload.Keys == {"name", "type", "content", "ttl"}
    ensures q.payload["name"] == name && q.payload["type"] == recordType
    ensures q.payload["content"] == content && q.payload["ttl"] == ttl
  {
    Path3("dns", "create", domain);
    Request(Path(["dns", "create", domain]), map["name" := name, "type" := recordType, "content" := content, "ttl" := ttl])
  }

  /** Without a TTL the record is created with a TTL of 600 seconds. */
  lemma DefaultTtl(domain: string, name: string, recordType: string, content: string)
    ensures CreateDnsRecord(domain, name, recordType, content).payload["ttl"] == "600"
  {
  }

  /** Each domain is created through its own path. */
  lemma CreateEndpointInjective(d1: string, d2: string)
    requires '/' !in d1 && '/' !in d2
    requires CreateDnsRecord(d1, "", "", "").endpoint == CreateDnsRecord(d2, "", "", "").endpoint
    ensures d1 == d2
  {
    var s1 := ["dns", "create", d1];
    var s2 := ["dns", "create", d2];
    Path3("dns", "create", d1);
    Path3("dns", "create", d2);
    assert forall k :: 0 <= k < |s1| ==> '/' !in s1[k];
    assert forall k :: 0 <= k < |s2| ==> '/' !in s2[k];
    PathInjective(s1, s2);
    assert s1[2] == s2[2];
  }

  /** The main block: load the config and build the create request from its four values. */
  method Run(lines: seq<string>, domain: string) returns (r: Result<Request, ConfigError>)
    ensures r.Err? <==> !("RECORD_NAME" in Fold(lines, RegexConfig.ParseLine)
                          && "RECORD_TYPE" in Fold(lines, RegexConfig.ParseLine)
                          && "RECORD_CONTENT" in Fold(lines, RegexConfig.ParseLine)
                          && "RECORD_TTL" in Fold(lines, RegexConfig.ParseLine))
    ensures r.Ok? ==>
              var config := Fold(lines, RegexConfig.ParseLine);
              && r.value.endpoint == "/dns/create/" + domain
              && r.value.payload == map["name" := config["RECORD_NAME"], "type" := config["RECORD_TYPE"],
                                        "content" := config["RECORD_CONTENT"], "ttl" := config["RECORD_TTL"]]
    ensures r.Ok? ==> forall k :: k in r.value.payload ==> '"' !in r.value.payload[k]
  {
    var loaded := LoadRecordConfig(lines);
    if loaded.Err? {
      return Err(loaded.error);
    }
    var config := loaded.value;
    r := Ok(CreateDnsRecord(domain, config["RECORD_NAME"], config["RECORD_TYPE"], config["RECORD_CONTENT"], config["RECORD_TTL"]));
    RegexConfig.ConfigEntriesMatchPattern(lines, "RECORD_NAME");
    RegexConfig.ConfigEntriesMatchPattern(lines, "RECORD_TYPE");
    RegexConfig.ConfigEntriesMatchPattern(lines, "RECORD_CONTENT");
    RegexConfig.ConfigEntriesMatchPattern(lines, "RECORD_TTL");
    assert r.value.payload == map["name" := config["RECORD_NAME"], "type" := config["RECORD_TYPE"],
                                  "content" := config["RECORD_CONTENT"], "ttl" := config["RECORD_TTL"]];
  }
}
