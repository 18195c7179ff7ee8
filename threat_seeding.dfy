/**
 * How the Simulator seeds an empty threat table: 10 to 15 hostnames "D" plus
 * 5 to 8 random characters, then one CVE record per threat draw, each against
 * one of those hostnames. Every random draw, and the detection date the
 * seeder derives from the clock, is an input.
 */
module ThreatSeeding {
  import opened Decimal
  import opened Entities
  import opened Identifiers

  const CvePrefixes: seq<string> := ["CVE-2023-", "CVE-2024-", "CVE-2022-", "CVE-2021-"]

  const Remediations: seq<string> := [
    "Apply security patch immediately",
    "Update to latest version",
    "Disable affected feature",
    "Apply workaround from vendor",
    "Upgrade system components",
    "Review and update access controls"
  ]

  /** A hostname of the seeded shape: "D" and then 5 to 8 characters from A-Z and 0-9. */
  predicate IsSeededHostname(h: string) {
    6 <= |h| <= 9 && h[0] == 'D' && forall k :: 1 <= k < |h| ==> IsCodeChar(h[k])
  }

  function GenerateHostname(picks: seq<int>): (hostname: string)
    requires ValidCodeDraw(picks)
    ensures IsSeededHostname(hostname)
    ensures hostname[1..] == RandomCode(picks)
  {
    var code := RandomCode(picks);
    assert forall k :: 1 <= k < 1 + |code| ==> (DevicePrefix + code)[k] == code[k - 1];
    DevicePrefix + code
  }

  /** Between 10 and 15 hostnames (the loop redraws its bound at each test). */
  method GenerateHostnames(bounds: seq<int>, codes: seq<seq<int>>) returns (hostnames: seq<string>)
    requires ValidBoundDraws(bounds, 10, 15)
    requires |codes| >= 15 && forall k :: 0 <= k < |codes| ==> ValidCodeDraw(codes[k])
    ensures 10 <= |hostnames| <= 15
    ensures forall k :: 0 <= k < |hostnames| ==> k < bounds[k] && hostnames[k] == GenerateHostname(codes[k])
    ensures bounds[|hostnames|] <= |hostnames|
  {
    hostnames := [];
    var i := 0;
    while i < bounds[i]
      invariant 0 <= i <= 15 && |hostnames| == i
      invariant forall k :: 0 <= k < i ==> k < bounds[k] && hostnames[k] == GenerateHostname(codes[k])
      decreases 15 - i
    {
      hostnames := hostnames + [GenerateHostname(codes[i])];
      i := i + 1;
    }
  }

  /** The draws of one threat record: indices into the hostnames and the constant tables,
      the CVE number in [1000, 99999) and the detection date. */
  datatype ThreatDraw = ThreatDraw(
    host: int, prefix: int, number: int, severity: int, remediation: int, detectedDate: Date)

  predicate ValidThreatDraw(d: ThreatDraw, hostCount: int) {
    && 0 <= d.host < hostCount
    && 0 <= d.prefix < |CvePrefixes|
    && 1000 <= d.number < 99999
    && 0 <= d.severity < |Severities|
    && 0 <= d.remediation < |Remediations|
  }

  /** The record one draw produces; its id is left to the database. */
  function ThreatOf(hostnames: seq<string>, d: ThreatDraw): CveThreat
    requires ValidThreatDraw(d, |hostnames|)
  {
    CveThreat(0, hostnames[d.host], CvePrefixes[d.prefix] + NatToString(d.number),
              Severities[d.severity], Remediations[d.remediation], d.detectedDate)
  }

  /** One threat record per draw, in draw order. */
  method GenerateThreats(hostnames: seq<string>, draws: seq<ThreatDraw>) returns (threats: seq<CveThreat>)
    requires forall k :: 0 <= k < |draws| ==> ValidThreatDraw(draws[k], |hostnames|)
    ensures |threats| == |draws|
    ensures forall k :: 0 <= k < |threats| ==> threats[k] == ThreatOf(hostnames, draws[k])
    ensures forall k :: 0 <= k < |threats| ==> threats[k].hostname in hostnames && threats[k].severity in Severities
  {
    threats := [];
    for i := 0 to |draws|
      invariant |threats| == i
      invariant forall k :: 0 <= k < i ==> threats[k] == ThreatOf(hostnames, draws[k])
      invariant forall k :: 0 <= k < i ==> threats[k].hostname in hostnames && threats[k].severity in Severities
    {
      threats := threats + [ThreatOf(hostnames, draws[i])];
    }
  }

  /** Every seeded record names a seeded hostname, so every record's hostname has the seeded shape. */
  lemma SeededThreatHostnames(hostnames: seq<string>, threats: seq<CveThreat>)
    requires forall k :: 0 <= k < |hostnames| ==> IsSeededHostname(hostnames[k])
    requires forall k :: 0 <= k < |threats| ==> threats[k].hostname in hostnames
    ensures forall k :: 0 <= k < |threats| ==> IsSeededHostname(threats[k].hostname)
  {
    forall k | 0 <= k < |threats| ensures IsSeededHostname(threats[k].hostname) {
      var j :| 0 <= j < |hostnames| && hostnames[j] == threats[k].hostname;
    }
  }
}
