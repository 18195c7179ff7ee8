/**
 * The records the two services exchange and serve: the audit summary of the
 * Engine and the threat summary and details of the Simulator. Status and
 * action, strings on the wire, are closed enumerations here: the audit only
 * ever assigns two of each.
 */
module Dtos {
  import opened Entities

  datatype ComplianceStatus = Compliant | NonCompliant

  datatype ComplianceAction = Replace | Monitor

  /** The status as it is serialised. */
  function StatusText(s: ComplianceStatus): (t: string)
    ensures t == "Compliant" <==> s == Compliant
    ensures t == "Non-Compliant" <==> s == NonCompliant
  {
    match s
    case Compliant => "Compliant"
    case NonCompliant => "Non-Compliant"
  }

  /** The action as it is serialised. */
  function ActionText(a: ComplianceAction): (t: string)
    ensures t == "Replace" <==> a == Replace
    ensures t == "Monitor" <==> a == Monitor
  {
    match a
    case Replace => "Replace"
    case Monitor => "Monitor"
  }

  datatype ComplianceItem = ComplianceItem(
    sn: string,
    hostname: string,
    purchaseDate: Date,
    ageYears: int,
    status: ComplianceStatus,
    action: ComplianceAction,
    threatCount: int,
    reason: string)

  datatype AuditSummary = AuditSummary(
    complianceItems: seq<ComplianceItem>,
    totalAssets: int,
    compliantCount: int,
    nonCompliantCount: int)

  datatype HostThreatCount = HostThreatCount(
    hostname: string,
    threatCount: int,
    criticalCount: int,
    highCount: int,
    mediumCount: int,
    lowCount: int)

  datatype ThreatSummary = ThreatSummary(
    hostThreatCounts: seq<HostThreatCount>,
    totalThreats: int,
    totalHosts: int)

  datatype CveThreatDetail = CveThreatDetail(
    cveId: string,
    severity: string,
    remediation: string,
    detectedDate: Date)

  datatype ThreatDetails = ThreatDetails(
    hostname: string,
    cves: seq<CveThreatDetail>,
    totalCount: int)
}
