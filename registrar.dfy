/**
  What the record scripts see of the registrar's JSON API: endpoint paths, the
  decoded reply of a call and the DNS records it lists. Sending the request
  (`make_porkbun_request`, credentials, HTTP) is not part of this model; a call is
  an input value, the reply that came back or a failure.
 */
module Registrar {
  import opened Wrappers
  import opened Text

  /**
    One entry of the reply's `records` list. Each field is `record.get(...)`: None when the
    key is missing.
   */
  datatype DnsRecord = DnsRecord(id: Option<string>, name: Option<string>, recordType: Option<string>, content: Option<string>)

  /**
    The outcome of one API call: the decoded JSON object (status, records, message), or a
    request or decoding exception with its text.
   */
  datatype ApiReply =
    | Reply(status: Option<string>, records: Option<seq<DnsRecord>>, message: Option<string>)
    | CallFailed(error: string)

  /** `response.get("status") == "SUCCESS" and "records" in response`: the records, or None. */
  function RetrievedRecords(reply: ApiReply): (r: Option<seq<DnsRecord>>)
    ensures r.Some? <==> reply.Reply? && reply.status == Some("SUCCESS") && reply.records.Some?
    ensures r.Some? ==> r.value == reply.records.value
  {
    if reply.Reply? && reply.status == Some("SUCCESS") && reply.records.Some? then reply.records else None
  }

  /** `f"{name}.{domain}" if name else domain`. */
  function FullName(name: string, domain: string): (r: string)
    ensures |r| >= |domain| && r[|r| - |domain|..] == domain
    ensures name == [] ==> r == domain
    ensures name != [] ==> |r| == |name| + 1 + |domain| && r[..|name|] == name && r[|name|] == '.'
  {
    if name == [] then domain else name + "." + domain
  }

  /** Within one domain, different record names give different full names. */
  lemma FullNameInjective(n1: string, n2: string, domain: string)
    requires FullName(n1, domain) == FullName(n2, domain)
    ensures n1 == n2
  {
    if n1 != [] && n2 != [] {
      assert |n1| == |n2|;
      assert n1 == FullName(n1, domain)[..|n1|];
    }
  }

  /** An API path: `/` followed by its segments joined with `/`. */
  function Path(segments: seq<string>): string {
    Join([""] + segments, "/")
  }

  /** When no segment contains `/`, the segments can be read back from the path. */
  lemma PathSegments(segments: seq<string>)
    requires forall k :: 0 <= k < |segments| ==> '/' !in segments[k]
    ensures SplitOn(Path(segments), "/") == [""] + segments
  {
    var parts := [""] + segments;
    forall k | 0 <= k < |parts| ensures '/' !in parts[k] {
      if k > 0 {
        assert parts[k] == segments[k - 1];
      }
    }
    SplitJoin(parts, '/');
  }

  /** Two paths of `/`-free segments are equal only when their segments are. */
  lemma PathInjective(s1: seq<string>, s2: seq<string>)
    requires forall k :: 0 <= k < |s1| ==> '/' !in s1[k]
    requires forall k :: 0 <= k < |s2| ==> '/' !in s2[k]
    requires Path(s1) == Path(s2)
    ensures s1 == s2
  {
    PathSegments(s1);
    PathSegments(s2);
    assert s1 == ([""] + s1)[1..];
    assert s2 == ([""] + s2)[1..];
  }

  /** The path of two segments written out. */
  lemma Path2(a: string, b: string)
    ensures Path([a, b]) == "/" + a + "/" + b
  {
    JoinCons("", [a, b], "/");
    JoinCons(a, [b], "/");
  }

  lemma Path3(a: string, b: string, c: string)
    ensures Path([a, b, c]) == "/" + a + "/" + b + "/" + c
  {
    JoinCons("", [a, b, c], "/");
    JoinCons(a, [b, c], "/");
    JoinCons(b, [c], "/");
  }

  lemma Path4(a: string, b: string, c: string, d: string)
    ensures Path([a, b, c, d]) == "/" + a + "/" + b + "/" + c + "/" + d
  {
    JoinCons("", [a, b, c, d], "/");
    JoinCons(a, [b, c, d], "/");
    JoinCons(b, [c, d], "/");
    JoinCons(c, [d], "/");
  }

  lemma Path5(a: string, b: string, c: string, d: string, e: string)
    ensures Path([a, b, c, d, e]) == "/" + a + "/" + b + "/" + c + "/" + d + "/" + e
  {
    JoinCons("", [a, b, c, d, e], "/");
    JoinCons(a, [b, c, d, e], "/");
    JoinCons(b, [c, d, e], "/");
    JoinCons(c, [d, e], "/");
    JoinCons(d, [e], "/");
  }
}
