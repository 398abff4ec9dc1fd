/**
  `is_cloudflare_nameserver`: a nameserver returned by a resolver is one of the target
  nameservers when, lower-cased and with every trailing dot removed, it equals the
  lower-cased form of a target. The targets are a parameter: the list of the
  propagation script is `CloudflareNs`.
 */
module Nameservers {
  import opened Text

  /** `CLOUDFLARE_NS` of the propagation script. */
  const CloudflareNs: seq<string> := ["kellen.ns.cloudflare.com", "melina.ns.cloudflare.com"]

  /** `nameserver.lower().rstrip('.')`. */
  function Normalize(ns: string): string {
    RStripChar(Lower(ns), '.')
  }

  /** `any(ns.lower() == nameserver for ns in targets)` on the normalised nameserver. */
  predicate IsCloudflareNameserver(ns: string, targets: seq<string>) {
    exists i | 0 <= i < |targets| :: Lower(targets[i]) == Normalize(ns)
  }

  /** `x` is `y`, which does not end with a dot, followed by a run of dots. */
  ghost predicate DotsAfter(x: string, y: string) {
    !EndsWith(y, '.') && RunAfter(x, y, '.')
  }

  /**
    The match read without `rstrip`: the lower-cased nameserver is a lower-cased target that
    does not end with a dot, followed by any number of dots.
   */
  lemma MatchIff(ns: string, targets: seq<string>)
    ensures IsCloudflareNameserver(ns, targets) <==>
              exists i | 0 <= i < |targets| :: DotsAfter(Lower(ns), Lower(targets[i]))
  {
    forall i | 0 <= i < |targets|
      ensures Lower(targets[i]) == Normalize(ns) <==> DotsAfter(Lower(ns), Lower(targets[i]))
    {
      RStripCharIff(Lower(ns), '.', Lower(targets[i]));
    }
  }

  /** Letter case never changes the verdict. */
  lemma CaseNeverMatters(a: string, b: string, targets: seq<string>)
    requires Lower(a) == Lower(b)
    ensures IsCloudflareNameserver(a, targets) <==> IsCloudflareNameserver(b, targets)
  {
  }

  lemma {:induction false} LowerOfDots(n: nat)
    ensures Lower(Repeat('.', n)) == Repeat('.', n)
  {
  }

  /** Trailing dots never change the verdict. */
  lemma TrailingDotsNeverMatter(ns: string, n: nat, targets: seq<string>)
    ensures IsCloudflareNameserver(ns + Repeat('.', n), targets) <==> IsCloudflareNameserver(ns, targets)
  {
    LowerAppend(ns, Repeat('.', n));
    LowerOfDots(n);
    RStripCharRun(Lower(ns), '.', n);
    assert Normalize(ns + Repeat('.', n)) == Normalize(ns);
  }

  /** A target written with a trailing dot is never matched: targets are lower-cased only. */
  lemma DottedTargetNeverMatches(ns: string, t: string)
    requires EndsWith(t, '.')
    ensures !IsCloudflareNameserver(ns, [t])
  {
    assert Lower(t)[|t| - 1] == '.';
  }

  /** A target that does not end with a dot is recognised, followed by any number of dots. */
  lemma TargetRecognised(targets: seq<string>, i: nat, n: nat)
    requires i < |targets| && !EndsWith(targets[i], '.')
    ensures IsCloudflareNameserver(targets[i] + Repeat('.', n), targets)
  {
    var t := targets[i];
    TrailingDotsNeverMatter(t, n, targets);
    if t != [] {
      assert Lower(t)[|t| - 1] == LowerChar(t[|t| - 1]);
    }
    RStripCharOfRun(Lower(t), '.', 0);
    assert Lower(t) + Repeat('.', 0) == Lower(t);
    assert Normalize(t) == Lower(t);
  }
}
