/**
 * What holds when the Engine audits the snapshot the Simulator serves: the
 * Simulator's grouping makes hostnames unique and counts positive, so the
 * Engine's two lookups agree, and the inventory the Engine seeds from such a
 * snapshot is matched host for host.
 */
module Pipeline {
  import opened Entities
  import opened Dtos
  import Compliance
  import ThreatAggregation
  import AssetSeeding
  import ThreatSeeding

  /** The Simulator's snapshot has the uniqueness the Engine's lookups rely on. */
  lemma SnapshotHostnamesDistinct(threats: seq<CveThreat>)
    ensures Compliance.HostnamesDistinct(ThreatAggregation.Summarize(threats).hostThreatCounts)
  {
    ThreatAggregation.SummaryHostsDistinct(threats);
  }

  /** Against the Simulator's snapshot, a host's looked-up count is its number of CVE records,
      and it is in the threat set exactly when it has at least one. */
  lemma LookupCountsRecords(threats: seq<CveThreat>, hostname: string)
    ensures var counts := ThreatAggregation.Summarize(threats).hostThreatCounts;
      && Compliance.FirstThreatCount(counts, hostname) == |ThreatAggregation.Group(threats, hostname)|
      && (hostname in Compliance.ThreatHosts(counts) <==>
            exists i :: 0 <= i < |threats| && threats[i].hostname == hostname)
  {
    var counts := ThreatAggregation.Summarize(threats).hostThreatCounts;
    SnapshotHostnamesDistinct(threats);
    Compliance.DistinctHostsAgree(counts, hostname);
    if k :| 0 <= k < |counts| && counts[k].hostname == hostname {
      Compliance.MatchIsFirst(counts, hostname, k);
      ThreatAggregation.EntryCountsItsHost(threats, k);
    } else {
      forall i | 0 <= i < |threats| ensures threats[i].hostname != hostname {
        ThreatAggregation.SummaryCoversHosts(threats, i);
      }
    }
  }

  /** Audited against the Simulator's snapshot, an asset is Non-Compliant exactly when some CVE
      record names its hostname and it is at least five years old; its count is its record count. */
  lemma AuditAgainstSimulator(currentYear: int, assets: seq<HardwareAsset>, threats: seq<CveThreat>, i: int)
    requires 0 <= i < |assets|
    ensures var counts := ThreatAggregation.Summarize(threats).hostThreatCounts;
      var item := Compliance.Summarize(currentYear, assets, counts).complianceItems[i];
      && item.threatCount == |ThreatAggregation.Group(threats, assets[i].hostname)|
      && (item.status == NonCompliant <==>
            (exists j :: 0 <= j < |threats| && threats[j].hostname == assets[i].hostname)
            && currentYear - assets[i].purchaseDate.year >= Compliance.ReplacementAge)
      && (item.threatCount > 0 <==> exists j :: 0 <= j < |threats| && threats[j].hostname == assets[i].hostname)
  {
    LookupCountsRecords(threats, assets[i].hostname);
  }

  /** Every entry of the summary of seeded threats names a seeded hostname, so it starts with 'D'. */
  lemma SummaryOfSeededThreats(hostnames: seq<string>, threats: seq<CveThreat>)
    requires forall j :: 0 <= j < |hostnames| ==> ThreatSeeding.IsSeededHostname(hostnames[j])
    requires forall j :: 0 <= j < |threats| ==> threats[j].hostname in hostnames
    ensures var counts := ThreatAggregation.Summarize(threats).hostThreatCounts;
      forall m :: 0 <= m < |counts| ==> |counts[m].hostname| > 0 && counts[m].hostname[0] == 'D'
  {
    var counts := ThreatAggregation.Summarize(threats).hostThreatCounts;
    ThreatSeeding.SeededThreatHostnames(hostnames, threats);
    ThreatAggregation.SummaryHostsDistinct(threats);
    forall m | 0 <= m < |counts| ensures |counts[m].hostname| > 0 && counts[m].hostname[0] == 'D' {
      var names := ThreatAggregation.HostnamesOf(threats);
      var j :| 0 <= j < |names| && names[j] == counts[m].hostname;
      assert ThreatSeeding.IsSeededHostname(threats[j].hostname);
    }
  }

  /** Seeded against a snapshot of seeded threats, every asset's hostname has CVE records. */
  lemma SeededAssetsHaveRecords(hostnames: seq<string>, threats: seq<CveThreat>, deviceCount: int, k: int)
    requires 5 <= deviceCount <= 10
    requires forall j :: 0 <= j < |hostnames| ==> ThreatSeeding.IsSeededHostname(hostnames[j])
    requires forall j :: 0 <= j < |threats| ==> threats[j].hostname in hostnames
    requires var counts := ThreatAggregation.Summarize(threats).hostThreatCounts;
      0 <= k < |AssetSeeding.SelectSerialNumbers(AssetSeeding.SerialsFromSnapshot(counts), deviceCount)|
    ensures var counts := ThreatAggregation.Summarize(threats).hostThreatCounts;
      var serial := AssetSeeding.SelectSerialNumbers(AssetSeeding.SerialsFromSnapshot(counts), deviceCount)[k];
      exists j :: 0 <= j < |threats| && threats[j].hostname == AssetSeeding.HostnameOf(serial)
  {
    var counts := ThreatAggregation.Summarize(threats).hostThreatCounts;
    SummaryOfSeededThreats(hostnames, threats);
    AssetSeeding.SnapshotAssetsMatchSnapshot(counts, deviceCount, k);
    var serial := AssetSeeding.SelectSerialNumbers(AssetSeeding.SerialsFromSnapshot(counts), deviceCount)[k];
    ThreatAggregation.SummaryHostsDistinct(threats);
    EntryHostHasRecord(threats, counts, AssetSeeding.HostnameOf(serial));
  }

  /** A hostname named by an entry drawn from the records' hostnames is some record's hostname. */
  lemma EntryHostHasRecord(threats: seq<CveThreat>, counts: seq<HostThreatCount>, hostname: string)
    requires forall m :: 0 <= m < |counts| ==> counts[m].hostname in ThreatAggregation.HostnamesOf(threats)
    requires exists m :: 0 <= m < |counts| && hostname == counts[m].hostname
    ensures exists j :: 0 <= j < |threats| && threats[j].hostname == hostname
  {
    var m :| 0 <= m < |counts| && hostname == counts[m].hostname;
    var names := ThreatAggregation.HostnamesOf(threats);
    var j :| 0 <= j < |names| && names[j] == hostname;
    assert threats[j].hostname == hostname;
  }
}
