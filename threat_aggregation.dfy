/**
 * The two read endpoints of the Simulator: the per-host threat summary
 * (GET /api/v1/threats/summary), a GroupBy over the CVE records keyed by the
 * exact hostname, and the per-host details (GET /api/v1/threats/details/{hostname}),
 * a filter on the same key.
 */
module ThreatAggregation {
  import opened Sequences
  import opened Entities
  import opened Dtos

  /** The hostname of every threat, in record order. */
  function HostnamesOf(threats: seq<CveThreat>): (names: seq<string>)
    ensures |names| == |threats|
    ensures forall i :: 0 <= i < |threats| ==> names[i] == threats[i].hostname
  {
    seq(|threats|, i requires 0 <= i < |threats| => threats[i].hostname)
  }

  /** The threats recorded against `hostname`, in record order (one GroupBy group, or the Where filter). */
  function Group(threats: seq<CveThreat>, hostname: string): (g: seq<CveThreat>)
    ensures |g| <= |threats|
    ensures |g| == Occurrences(HostnamesOf(threats), hostname)
    ensures forall k :: 0 <= k < |g| ==> g[k].hostname == hostname && g[k] in threats
    ensures (exists i :: 0 <= i < |threats| && threats[i].hostname == hostname) <==> |g| > 0
    decreases |threats|
  {
    if threats == [] then []
    else
      var rest := Group(threats[1..], hostname);
      assert HostnamesOf(threats)[1..] == HostnamesOf(threats[1..]);
      assert forall i :: 1 <= i < |threats| ==> threats[i] == threats[1..][i - 1];
      if threats[0].hostname == hostname then [threats[0]] + rest else rest
  }

  /** The number of threats in `g` whose severity is exactly `severity`. */
  function CountSeverity(g: seq<CveThreat>, severity: string): (n: nat)
    ensures n <= |g|
    decreases |g|
  {
    if g == [] then 0
    else (if g[0].severity == severity then 1 else 0) + CountSeverity(g[1..], severity)
  }

  /** The summary entry of one host. */
  function Entry(threats: seq<CveThreat>, hostname: string): (e: HostThreatCount)
    ensures e.hostname == hostname
  {
    var g := Group(threats, hostname);
    HostThreatCount(hostname, |g|,
      CountSeverity(g, "Critical"), CountSeverity(g, "High"),
      CountSeverity(g, "Medium"), CountSeverity(g, "Low"))
  }

  /** One entry per key, in key order. */
  function Entries(threats: seq<CveThreat>, keys: seq<string>): (es: seq<HostThreatCount>)
    ensures |es| == |keys|
    ensures forall k :: 0 <= k < |keys| ==> es[k] == Entry(threats, keys[k])
    decreases |keys|
  {
    if keys == [] then [] else [Entry(threats, keys[0])] + Entries(threats, keys[1..])
  }

  /** The threat summary endpoint: groups in order of first appearance, per-host counts and totals. */
  function Summarize(threats: seq<CveThreat>): (s: ThreatSummary)
    ensures s.totalThreats == |threats|
    ensures s.totalHosts == |s.hostThreatCounts|
    ensures forall k :: 0 <= k < |s.hostThreatCounts| ==>
      s.hostThreatCounts[k] == Entry(threats, s.hostThreatCounts[k].hostname)
  {
    var counts := Entries(threats, Distinct(HostnamesOf(threats)));
    ThreatSummary(counts, |threats|, |counts|)
  }

  /** The details endpoint: every CVE recorded against the requested hostname. */
  function Details(threats: seq<CveThreat>, hostname: string): (d: ThreatDetails)
    ensures d.hostname == hostname
    ensures d.totalCount == |d.cves|
    ensures |d.cves| == |Group(threats, hostname)|
    ensures forall k :: 0 <= k < |d.cves| ==>
      exists i :: 0 <= i < |threats| && threats[i].hostname == hostname && d.cves[k] == Detail(threats[i])
  {
    var g := Group(threats, hostname);
    var cves := seq(|g|, k requires 0 <= k < |g| => Detail(g[k]));
    ThreatDetails(hostname, cves, |g|)
  }

  function Detail(t: CveThreat): CveThreatDetail {
    CveThreatDetail(t.cveId, t.severity, t.remediation, t.detectedDate)
  }

  // ---------------------------------------------------------------------------
  // Properties of the summary

  /** The hostnames of the summary entries are the de-duplicated hostnames of the records. */
  lemma SummaryKeys(threats: seq<CveThreat>)
    ensures var counts := Summarize(threats).hostThreatCounts;
      var keys := Distinct(HostnamesOf(threats));
      |counts| == |keys| && forall k :: 0 <= k < |counts| ==> counts[k].hostname == keys[k]
  {
  }

  /** Entries come in the order in which their hostnames first appear among the records. */
  lemma SummaryInFirstAppearanceOrder(threats: seq<CveThreat>, i: int, j: int)
    requires 0 <= i < j < |Summarize(threats).hostThreatCounts|
    ensures var counts := Summarize(threats).hostThreatCounts;
      var names := HostnamesOf(threats);
      counts[i].hostname in names && counts[j].hostname in names &&
      FirstIndex(names, counts[i].hostname) < FirstIndex(names, counts[j].hostname)
  {
    SummaryKeys(threats);
    DistinctFirstOccurrenceOrder(HostnamesOf(threats), i, j);
  }

  /** The summary names every host once, and only hosts that have threat records. */
  lemma SummaryHostsDistinct(threats: seq<CveThreat>)
    ensures var counts := Summarize(threats).hostThreatCounts;
      && (forall i, j :: 0 <= i < j < |counts| ==> counts[i].hostname != counts[j].hostname)
      && (forall k :: 0 <= k < |counts| ==> counts[k].hostname in HostnamesOf(threats))
  {
    SummaryKeys(threats);
    EntriesKeyedBy(HostnamesOf(threats), Summarize(threats).hostThreatCounts, Distinct(HostnamesOf(threats)));
  }

  /** Entries keyed one-to-one by duplicate-free hostnames drawn from `names` are themselves
      duplicate-free and drawn from `names`. */
  lemma EntriesKeyedBy(names: seq<string>, counts: seq<HostThreatCount>, keys: seq<string>)
    requires |counts| == |keys| && forall k :: 0 <= k < |keys| ==> counts[k].hostname == keys[k]
    requires NoDuplicates(keys)
    requires forall k :: 0 <= k < |keys| ==> keys[k] in names
    ensures forall i, j :: 0 <= i < j < |counts| ==> counts[i].hostname != counts[j].hostname
    ensures forall k :: 0 <= k < |counts| ==> counts[k].hostname in names
  {
    forall i, j | 0 <= i < j < |counts| ensures counts[i].hostname != counts[j].hostname {
      assert counts[i].hostname == keys[i] && counts[j].hostname == keys[j];
    }
    forall k | 0 <= k < |counts| ensures counts[k].hostname in names {
      assert counts[k].hostname == keys[k];
    }
  }

  /** Every host with a threat record has a summary entry. */
  lemma SummaryCoversHosts(threats: seq<CveThreat>, i: int)
    requires 0 <= i < |threats|
    ensures var counts := Summarize(threats).hostThreatCounts;
      exists k :: 0 <= k < |counts| && counts[k].hostname == threats[i].hostname
  {
    var keys := Distinct(HostnamesOf(threats));
    SummaryKeys(threats);
    assert HostnamesOf(threats)[i] in keys;
    var k :| 0 <= k < |keys| && keys[k] == threats[i].hostname;
    assert Summarize(threats).hostThreatCounts[k].hostname == threats[i].hostname;
  }

  /** Each entry counts exactly the records of its host, so it is at least one. */
  lemma EntryCountsItsHost(threats: seq<CveThreat>, k: int)
    requires 0 <= k < |Summarize(threats).hostThreatCounts|
    ensures var e := Summarize(threats).hostThreatCounts[k];
      e.threatCount == |Group(threats, e.hostname)| >= 1
  {
    SummaryHostsDistinct(threats);
  }

  /** The number of entries is the number of distinct hostnames among the records. */
  lemma TotalHostsIsDistinctHostnames(threats: seq<CveThreat>)
    ensures Summarize(threats).totalHosts == |Elements(HostnamesOf(threats))|
  {
    DistinctCardinality(HostnamesOf(threats));
  }

  function SumThreatCounts(counts: seq<HostThreatCount>): int
    decreases |counts|
  {
    if counts == [] then 0 else counts[0].threatCount + SumThreatCounts(counts[1..])
  }

  /** Adding one record in front adds one to the count of each key equal to its hostname. */
  lemma {:induction false} SumOfConsEntries(t: CveThreat, rest: seq<CveThreat>, keys: seq<string>)
    ensures SumThreatCounts(Entries([t] + rest, keys))
      == Occurrences(keys, t.hostname) + SumThreatCounts(Entries(rest, keys))
    decreases |keys|
  {
    if keys != [] {
      assert ([t] + rest)[1..] == rest;
      SumOfConsEntries(t, rest, keys[1..]);
    }
  }

  /** Over keys covering every hostname once, the counts add up to the number of records. */
  lemma {:induction false} SumOfEntries(threats: seq<CveThreat>, keys: seq<string>)
    requires NoDuplicates(keys)
    requires forall i :: 0 <= i < |threats| ==> threats[i].hostname in keys
    ensures SumThreatCounts(Entries(threats, keys)) == |threats|
    decreases |threats|
  {
    if threats == [] {
      EntriesOfNoThreats(keys);
    } else {
      var t, rest := threats[0], threats[1..];
      assert threats == [t] + rest;
      assert t.hostname in keys;
      assert forall i :: 0 <= i < |rest| ==> rest[i] == threats[i + 1];
      SumOfEntriesStep(t, rest, keys);
      SumOfEntries(rest, keys);
    }
  }

  /** A record whose hostname is one of the duplicate-free keys adds exactly one to the sum. */
  lemma SumOfEntriesStep(t: CveThreat, rest: seq<CveThreat>, keys: seq<string>)
    requires NoDuplicates(keys) && t.hostname in keys
    ensures SumThreatCounts(Entries([t] + rest, keys)) == 1 + SumThreatCounts(Entries(rest, keys))
  {
    SumOfConsEntries(t, rest, keys);
    OccursOnce(keys, t.hostname);
  }

  lemma {:induction false} EntriesOfNoThreats(keys: seq<string>)
    ensures SumThreatCounts(Entries([], keys)) == 0
    decreases |keys|
  {
    if keys != [] {
      EntriesOfNoThreats(keys[1..]);
    }
  }

  /** The per-host counts add up to the total, which is the number of records. */
  lemma SumOfCountsIsTotal(threats: seq<CveThreat>)
    ensures SumThreatCounts(Summarize(threats).hostThreatCounts) == Summarize(threats).totalThreats == |threats|
  {
    var keys := Distinct(HostnamesOf(threats));
    forall i | 0 <= i < |threats| ensures threats[i].hostname in keys {
      assert HostnamesOf(threats)[i] in keys;
    }
    SumOfEntries(threats, keys);
  }

  /** The four severity counts never exceed the group size, and fill it when every
      severity is one of the four known names. */
  lemma {:induction false} SeverityCountsBound(g: seq<CveThreat>)
    ensures CountSeverity(g, "Critical") + CountSeverity(g, "High")
      + CountSeverity(g, "Medium") + CountSeverity(g, "Low") <= |g|
    ensures (forall k :: 0 <= k < |g| ==> g[k].severity in Severities) ==>
      CountSeverity(g, "Critical") + CountSeverity(g, "High")
      + CountSeverity(g, "Medium") + CountSeverity(g, "Low") == |g|
    decreases |g|
  {
    if g != [] {
      SeverityCountsBound(g[1..]);
      assert forall k :: 1 <= k < |g| ==> g[1..][k - 1] == g[k];
    }
  }

  /** The severity counts of every summary entry are bounded by its threat count. */
  lemma EntrySeverities(threats: seq<CveThreat>, k: int)
    requires 0 <= k < |Summarize(threats).hostThreatCounts|
    ensures var e := Summarize(threats).hostThreatCounts[k];
      && e.criticalCount + e.highCount + e.mediumCount + e.lowCount <= e.threatCount
      && ((forall i :: 0 <= i < |threats| ==> threats[i].severity in Severities) ==>
           e.criticalCount + e.highCount + e.mediumCount + e.lowCount == e.threatCount)
  {
    var e := Summarize(threats).hostThreatCounts[k];
    assert e == Entry(threats, e.hostname);
    EntrySeverityCounts(threats, e.hostname);
  }

  lemma EntrySeverityCounts(threats: seq<CveThreat>, hostname: string)
    ensures var e := Entry(threats, hostname);
      && e.criticalCount + e.highCount + e.mediumCount + e.lowCount <= e.threatCount
      && ((forall i :: 0 <= i < |threats| ==> threats[i].severity in Severities) ==>
           e.criticalCount + e.highCount + e.mediumCount + e.lowCount == e.threatCount)
  {
    var g := Group(threats, hostname);
    SeverityCountsBound(g);
    if forall i :: 0 <= i < |threats| ==> threats[i].severity in Severities {
      forall m | 0 <= m < |g| ensures g[m].severity in Severities {
        var i :| 0 <= i < |threats| && threats[i] == g[m];
      }
    }
  }

  /** The group holds exactly the records of `hostname`, each as often as it was recorded. */
  lemma {:induction false} GroupMultiset(threats: seq<CveThreat>, hostname: string)
    ensures forall t ::
      multiset(Group(threats, hostname))[t] == (if t.hostname == hostname then multiset(threats)[t] else 0)
    decreases |threats|
  {
    if threats != [] {
      GroupMultiset(threats[1..], hostname);
      assert threats == [threats[0]] + threats[1..];
    }
  }

  /** The number of records of `hostname` whose severity is exactly `severity`. */
  function RecordsWith(threats: seq<CveThreat>, hostname: string, severity: string): nat
    decreases |threats|
  {
    if threats == [] then 0
    else
      var here := if threats[0].hostname == hostname && threats[0].severity == severity then 1 else 0;
      here + RecordsWith(threats[1..], hostname, severity)
  }

  /** Counting a severity within a host's group counts the host's records of that severity. */
  lemma {:induction false} GroupSeverityCount(threats: seq<CveThreat>, hostname: string, severity: string)
    ensures CountSeverity(Group(threats, hostname), severity) == RecordsWith(threats, hostname, severity)
    decreases |threats|
  {
    if threats != [] {
      var rest := Group(threats[1..], hostname);
      GroupSeverityCount(threats[1..], hostname, severity);
      if threats[0].hostname == hostname {
        assert ([threats[0]] + rest)[1..] == rest;
      }
    }
  }

  /** Each severity count of a host's entry is the number of its records with that severity. */
  lemma EntryCountsSeverities(threats: seq<CveThreat>, hostname: string)
    ensures var e := Entry(threats, hostname);
      && e.criticalCount == RecordsWith(threats, hostname, "Critical")
      && e.highCount == RecordsWith(threats, hostname, "High")
      && e.mediumCount == RecordsWith(threats, hostname, "Medium")
      && e.lowCount == RecordsWith(threats, hostname, "Low")
  {
    GroupSeverityCount(threats, hostname, "Critical");
    GroupSeverityCount(threats, hostname, "High");
    GroupSeverityCount(threats, hostname, "Medium");
    GroupSeverityCount(threats, hostname, "Low");
  }

  /** Every summary entry counts its host's Critical, High, Medium and Low records. */
  lemma EntrySeverityRecords(threats: seq<CveThreat>, k: int)
    requires 0 <= k < |Summarize(threats).hostThreatCounts|
    ensures var e := Summarize(threats).hostThreatCounts[k];
      && e.criticalCount == RecordsWith(threats, e.hostname, "Critical")
      && e.highCount == RecordsWith(threats, e.hostname, "High")
      && e.mediumCount == RecordsWith(threats, e.hostname, "Medium")
      && e.lowCount == RecordsWith(threats, e.hostname, "Low")
  {
    var e := Summarize(threats).hostThreatCounts[k];
    assert e == Entry(threats, e.hostname);
    EntryCountsSeverities(threats, e.hostname);
  }

  /** The details list the CVE of every record of the host. */
  lemma DetailsListEveryRecord(threats: seq<CveThreat>, hostname: string, i: int)
    requires 0 <= i < |threats| && threats[i].hostname == hostname
    ensures Detail(threats[i]) in Details(threats, hostname).cves
  {
    var g := Group(threats, hostname);
    GroupMultiset(threats, hostname);
    assert threats[i] in multiset(threats);
    assert threats[i] in multiset(g);
    var k :| 0 <= k < |g| && g[k] == threats[i];
    assert Details(threats, hostname).cves[k] == Detail(threats[i]);
  }

  /** The details of a host list as many CVEs as its summary entry counts, because both
      select the records by exact hostname equality; a database whose collation compares
      hostnames case-insensitively may list more records in the details. */
  lemma DetailsAgreeWithSummary(threats: seq<CveThreat>, k: int)
    requires 0 <= k < |Summarize(threats).hostThreatCounts|
    ensures var e := Summarize(threats).hostThreatCounts[k];
      Details(threats, e.hostname).totalCount == e.threatCount
  {
  }

  /** A hostname without records has empty details. */
  lemma DetailsOfUnknownHost(threats: seq<CveThreat>, hostname: string)
    requires forall i :: 0 <= i < |threats| ==> threats[i].hostname != hostname
    ensures Details(threats, hostname) == ThreatDetails(hostname, [], 0)
  {
  }
}
