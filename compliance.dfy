/**
 * The audit summary of the Engine (GET /api/audit/summary): a join of the
 * asset inventory with a threat snapshot on the exact hostname, followed by
 * the four-branch replacement rule and a count of the results by status.
 * The clock read of the endpoint is the parameter `currentYear`.
 */
module Compliance {
  import opened Wrappers
  import opened Decimal
  import opened Sequences
  import opened Entities
  import opened Dtos

  /** A device this many years old or older is due for replacement if it has threats. */
  const ReplacementAge: int := 5

  const FetchFailedMessage: string := "Failed to fetch threat data from Simulator"

  /** Whole calendar years between the purchase and `currentYear`; month and day are ignored. */
  function AgeYears(currentYear: int, purchaseDate: Date): (age: int)
    ensures age + purchaseDate.year == currentYear
    ensures age < 0 <==> purchaseDate.year > currentYear
  {
    currentYear - purchaseDate.year
  }

  // ---------------------------------------------------------------------------
  // Threat lookup

  /** The hostnames of the snapshot entries with a positive threat count (the hash set). */
  function ThreatHosts(counts: seq<HostThreatCount>): (hosts: set<string>)
    ensures forall h :: h in hosts <==>
      exists i :: 0 <= i < |counts| && counts[i].hostname == h && counts[i].threatCount > 0
  {
    set i | 0 <= i < |counts| && counts[i].threatCount > 0 :: counts[i].hostname
  }

  /** Entry `i` is the first one of `counts` whose hostname is exactly `hostname`. */
  ghost predicate IsFirstMatch(counts: seq<HostThreatCount>, hostname: string, i: int) {
    0 <= i < |counts| && counts[i].hostname == hostname &&
    forall j :: 0 <= j < i ==> counts[j].hostname != hostname
  }

  /** The threat count of the first entry for `hostname`, or 0 when there is none (FirstOrDefault). */
  function FirstThreatCount(counts: seq<HostThreatCount>, hostname: string): (n: int)
    ensures (forall i :: 0 <= i < |counts| ==> counts[i].hostname != hostname) ==> n == 0
    ensures forall i :: IsFirstMatch(counts, hostname, i) ==> n == counts[i].threatCount
    decreases |counts|
  {
    if counts == [] then 0
    else if counts[0].hostname == hostname then counts[0].threatCount
    else
      assert forall i :: IsFirstMatch(counts, hostname, i) ==> IsFirstMatch(counts[1..], hostname, i - 1);
      FirstThreatCount(counts[1..], hostname)
  }

  // ---------------------------------------------------------------------------
  // The replacement rule

  /** Which of the four branches applied, with the numbers its reason quotes. */
  datatype Verdict =
    | AgedWithThreats(age: int, count: int)
    | ThreatsButYoung(count: int, age: int)
    | AgedWithoutThreats(age: int)
    | NothingToReport

  /** The four-branch rule of the audit, tested in the C# code's order. */
  function Decide(ageYears: int, hasThreat: bool, threatCount: int): (v: Verdict)
    ensures v.AgedWithThreats? <==> hasThreat && ageYears >= ReplacementAge
    ensures v.ThreatsButYoung? <==> hasThreat && ageYears < ReplacementAge
    ensures v.AgedWithoutThreats? <==> !hasThreat && ageYears >= ReplacementAge
    ensures v.NothingToReport? <==> !hasThreat && ageYears < ReplacementAge
    ensures !v.NothingToReport? ==> v.age == ageYears
    ensures v.AgedWithThreats? || v.ThreatsButYoung? ==> v.count == threatCount
  {
    if hasThreat && ageYears >= ReplacementAge then AgedWithThreats(ageYears, threatCount)
    else if hasThreat then ThreatsButYoung(threatCount, ageYears)
    else if ageYears >= ReplacementAge then AgedWithoutThreats(ageYears)
    else NothingToReport
  }

  function StatusOf(v: Verdict): ComplianceStatus {
    if v.AgedWithThreats? then NonCompliant else Compliant
  }

  function ActionOf(v: Verdict): ComplianceAction {
    if v.AgedWithThreats? then Replace else Monitor
  }

  const AgedPrefix: string := "Device is "
  const AgedAndHas: string := " years old and has "
  const ThreatsWord: string := " threat(s)"
  const AgedButNoThreats: string := " years old but no threats detected"
  const ThreatenedPrefix: string := "Device has "
  const ButAgeIs: string := " threat(s) but age is "
  const YoungSuffix: string := " years (< 5 years)"
  const CompliantReason: string := "Device is compliant"

  /** The human-readable reason of each branch. */
  function Reason(v: Verdict): string {
    match v
    case AgedWithThreats(age, count) =>
      AgedPrefix + IntToString(age) + AgedAndHas + IntToString(count) + ThreatsWord
    case ThreatsButYoung(count, age) =>
      ThreatenedPrefix + IntToString(count) + ButAgeIs + IntToString(age) + YoungSuffix
    case AgedWithoutThreats(age) =>
      AgedPrefix + IntToString(age) + AgedButNoThreats
    case NothingToReport =>
      CompliantReason
  }

  /** `s` with `prefix` taken off its front, if it starts with it. */
  function DropPrefix(prefix: string, s: string): (r: Option<string>)
    ensures r.Some? <==> prefix <= s
    ensures r.Some? ==> s == prefix + r.value
  {
    if prefix <= s then Some(s[|prefix|..]) else None
  }

  /** Reads a verdict back from the text after "Device is ". */
  function ParseAged(s: string): Option<Verdict> {
    match ReadInt(s)
    case None => None
    case Some((age, rest)) =>
      if rest == AgedButNoThreats then Some(AgedWithoutThreats(age))
      else
        match DropPrefix(AgedAndHas, rest)
        case None => None
        case Some(countText) =>
          match ReadInt(countText)
          case None => None
          case Some((count, tail)) => if tail == ThreatsWord then Some(AgedWithThreats(age, count)) else None
  }

  /** Reads a verdict back from the text after "Device has ". */
  function ParseThreatened(s: string): Option<Verdict> {
    match ReadInt(s)
    case None => None
    case Some((count, rest)) =>
      match DropPrefix(ButAgeIs, rest)
      case None => None
      case Some(ageText) =>
        match ReadInt(ageText)
        case None => None
        case Some((age, tail)) => if tail == YoungSuffix then Some(ThreatsButYoung(count, age)) else None
  }

  /** Recovers the branch and its numbers from a reason text. */
  function ParseReason(s: string): Option<Verdict> {
    if s == CompliantReason then Some(NothingToReport)
    else
      match DropPrefix(AgedPrefix, s)
      case Some(rest) => ParseAged(rest)
      case None =>
        match DropPrefix(ThreatenedPrefix, s)
        case Some(rest) => ParseThreatened(rest)
        case None => None
  }

  /** Every reason names its branch and quotes its age and threat count faithfully. */
  lemma ParseReasonOfReason(v: Verdict)
    ensures ParseReason(Reason(v)) == Some(v)
  {
    match v
    case AgedWithThreats(age, count) => ReasonAgedWithThreats(age, count);
    case ThreatsButYoung(count, age) => ReasonThreatsButYoung(count, age);
    case AgedWithoutThreats(age) => ReasonAgedWithoutThreats(age);
    case NothingToReport =>
  }

  lemma ReasonAgedWithThreats(age: int, count: int)
    ensures ParseReason(Reason(AgedWithThreats(age, count))) == Some(AgedWithThreats(age, count))
  {
    AgedWithThreatsShape(age, count);
    AgedWithThreatsParsed(age, count);
  }

  lemma AgedWithThreatsShape(age: int, count: int)
    ensures Reason(AgedWithThreats(age, count))
      == AgedPrefix + (IntToString(age) + (AgedAndHas + IntToString(count) + ThreatsWord))
  {
    Regroup5(AgedPrefix, IntToString(age), AgedAndHas, IntToString(count), ThreatsWord);
  }

  lemma AgedWithThreatsParsed(age: int, count: int)
    ensures ParseReason(AgedPrefix + (IntToString(age) + (AgedAndHas + IntToString(count) + ThreatsWord)))
      == Some(AgedWithThreats(age, count))
  {
    ParseAgedWithThreats(age, count);
    ParseAgedReason(IntToString(age), AgedAndHas + IntToString(count) + ThreatsWord);
  }

  lemma ReasonThreatsButYoung(count: int, age: int)
    ensures ParseReason(Reason(ThreatsButYoung(count, age))) == Some(ThreatsButYoung(count, age))
  {
    ThreatsButYoungShape(count, age);
    ThreatsButYoungParsed(count, age);
  }

  lemma ThreatsButYoungShape(count: int, age: int)
    ensures Reason(ThreatsButYoung(count, age))
      == ThreatenedPrefix + (IntToString(count) + (ButAgeIs + IntToString(age) + YoungSuffix))
  {
    Regroup5(ThreatenedPrefix, IntToString(count), ButAgeIs, IntToString(age), YoungSuffix);
  }

  lemma ThreatsButYoungParsed(count: int, age: int)
    ensures ParseReason(ThreatenedPrefix + (IntToString(count) + (ButAgeIs + IntToString(age) + YoungSuffix)))
      == Some(ThreatsButYoung(count, age))
  {
    ParseThreatsButYoung(count, age);
    ParseThreatenedReason(IntToString(count), ButAgeIs + IntToString(age) + YoungSuffix);
  }

  lemma ReasonAgedWithoutThreats(age: int)
    ensures ParseReason(Reason(AgedWithoutThreats(age))) == Some(AgedWithoutThreats(age))
  {
    AgedWithoutThreatsShape(age);
    AgedWithoutThreatsParsed(age);
  }

  lemma AgedWithoutThreatsShape(age: int)
    ensures Reason(AgedWithoutThreats(age)) == AgedPrefix + (IntToString(age) + AgedButNoThreats)
  {
    Regroup3(AgedPrefix, IntToString(age), AgedButNoThreats);
  }

  lemma AgedWithoutThreatsParsed(age: int)
    ensures ParseReason(AgedPrefix + (IntToString(age) + AgedButNoThreats)) == Some(AgedWithoutThreats(age))
  {
    ParseAgedWithoutThreats(age);
    ParseAgedReason(IntToString(age), AgedButNoThreats);
  }

  lemma Regroup3(a: string, b: string, c: string)
    ensures a + b + c == a + (b + c)
  {
  }

  lemma Regroup5(a: string, b: string, c: string, d: string, e: string)
    ensures a + b + c + d + e == a + (b + (c + d + e))
  {
  }

  lemma DropPrefixOfConcat(prefix: string, rest: string)
    ensures DropPrefix(prefix, prefix + rest) == Some(rest)
  {
    assert (prefix + rest)[|prefix|..] == rest;
  }

  /** A reason starting "Device is " and a number is read by ParseAged. */
  lemma ParseAgedReason(ageText: string, after: string)
    requires |ageText| > 0 && (ageText[0] == '-' || IsDigit(ageText[0]))
    ensures ParseReason(AgedPrefix + (ageText + after)) == ParseAged(ageText + after)
  {
    var s := AgedPrefix + (ageText + after);
    assert s[|AgedPrefix|] == ageText[0];
    assert CompliantReason[|AgedPrefix|] == 'c';
    DropPrefixOfConcat(AgedPrefix, ageText + after);
  }

  /** A reason starting "Device has " is read by ParseThreatened. */
  lemma ParseThreatenedReason(countText: string, after: string)
    ensures ParseReason(ThreatenedPrefix + (countText + after)) == ParseThreatened(countText + after)
  {
    var s := ThreatenedPrefix + (countText + after);
    assert s[7] == 'h' && CompliantReason[7] == 'i' && AgedPrefix[7] == 'i';
    DropPrefixOfConcat(ThreatenedPrefix, countText + after);
  }

  lemma ParseAgedStep(text: string, age: int, after: string, countText: string, count: int)
    requires ReadInt(text) == Some((age, after))
    requires after != AgedButNoThreats
    requires DropPrefix(AgedAndHas, after) == Some(countText)
    requires ReadInt(countText) == Some((count, ThreatsWord))
    ensures ParseAged(text) == Some(AgedWithThreats(age, count))
  {
  }

  lemma AndHasIsNotNoThreats(countText: string)
    ensures AgedAndHas + countText + ThreatsWord != AgedButNoThreats
  {
    var after := AgedAndHas + countText + ThreatsWord;
    assert after[11] == 'a';
    assert AgedButNoThreats[11] == 'b';
  }

  lemma ParseAgedWithThreats(age: int, count: int)
    ensures ParseAged(IntToString(age) + (AgedAndHas + IntToString(count) + ThreatsWord))
      == Some(AgedWithThreats(age, count))
  {
    var countText := IntToString(count);
    var after := AgedAndHas + countText + ThreatsWord;
    ReadIntOfIntToString(age, after);
    ReadIntOfIntToString(count, ThreatsWord);
    AgedAndHasTail(countText);
    ParseAgedStep(IntToString(age) + after, age, after, countText + ThreatsWord, count);
  }

  /** The text after the age in a "has threats" reason is not the "no threats" text and
      starts with " years old and has ". */
  lemma AgedAndHasTail(countText: string)
    ensures var after := AgedAndHas + countText + ThreatsWord;
      after != AgedButNoThreats && DropPrefix(AgedAndHas, after) == Some(countText + ThreatsWord)
  {
    AndHasIsNotNoThreats(countText);
    Regroup3(AgedAndHas, countText, ThreatsWord);
    DropPrefixOfConcat(AgedAndHas, countText + ThreatsWord);
  }

  lemma ParseThreatenedStep(text: string, count: int, after: string, ageText: string, age: int)
    requires ReadInt(text) == Some((count, after))
    requires DropPrefix(ButAgeIs, after) == Some(ageText)
    requires ReadInt(ageText) == Some((age, YoungSuffix))
    ensures ParseThreatened(text) == Some(ThreatsButYoung(count, age))
  {
  }

  lemma ParseThreatsButYoung(count: int, age: int)
    ensures ParseThreatened(IntToString(count) + (ButAgeIs + IntToString(age) + YoungSuffix))
      == Some(ThreatsButYoung(count, age))
  {
    var ageText := IntToString(age);
    var after := ButAgeIs + ageText + YoungSuffix;
    ReadIntOfIntToString(count, after);
    ReadIntOfIntToString(age, YoungSuffix);
    ButAgeIsTail(ageText);
    ParseThreatenedStep(IntToString(count) + after, count, after, ageText + YoungSuffix, age);
  }

  /** The text after the count in a "threats but young" reason starts with " threat(s) but age is ". */
  lemma ButAgeIsTail(ageText: string)
    ensures DropPrefix(ButAgeIs, ButAgeIs + ageText + YoungSuffix) == Some(ageText + YoungSuffix)
  {
    Regroup3(ButAgeIs, ageText, YoungSuffix);
    DropPrefixOfConcat(ButAgeIs, ageText + YoungSuffix);
  }

  lemma ParseAgedWithoutThreats(age: int)
    ensures ParseAged(IntToString(age) + AgedButNoThreats) == Some(AgedWithoutThreats(age))
  {
    ReadIntOfIntToString(age, AgedButNoThreats);
  }

  /** Two different verdicts never share a reason text. */
  lemma ReasonInjective(v: Verdict, w: Verdict)
    requires Reason(v) == Reason(w)
    ensures v == w
  {
    ParseReasonOfReason(v);
    ParseReasonOfReason(w);
  }

  // ---------------------------------------------------------------------------
  // The summary

  /** The compliance item of one asset, given the threat-host set built once per audit. */
  function Evaluate(currentYear: int, threatHosts: set<string>, counts: seq<HostThreatCount>,
                    asset: HardwareAsset): (item: ComplianceItem)
    ensures item.sn == asset.sn && item.hostname == asset.hostname
    ensures item.purchaseDate == asset.purchaseDate
    ensures item.ageYears == AgeYears(currentYear, asset.purchaseDate)
    ensures item.threatCount == FirstThreatCount(counts, asset.hostname)
    ensures (item.status == NonCompliant) == (asset.hostname in threatHosts && item.ageYears >= ReplacementAge)
    ensures (item.action == Replace) == (item.status == NonCompliant)
    ensures item.reason == Reason(Decide(item.ageYears, asset.hostname in threatHosts, item.threatCount))
    ensures ParseReason(item.reason) ==
      Some(Decide(item.ageYears, asset.hostname in threatHosts, item.threatCount))
  {
    var ageYears := AgeYears(currentYear, asset.purchaseDate);
    var hasThreat := asset.hostname in threatHosts;
    var threatCount := FirstThreatCount(counts, asset.hostname);
    var verdict := Decide(ageYears, hasThreat, threatCount);
    ParseReasonOfReason(verdict);
    ComplianceItem(asset.sn, asset.hostname, asset.purchaseDate, ageYears,
                   StatusOf(verdict), ActionOf(verdict), threatCount, Reason(verdict))
  }

  /** The number of items with the given status. */
  function CountStatus(items: seq<ComplianceItem>, status: ComplianceStatus): (n: nat)
    ensures n <= |items|
    ensures n == 0 <==> forall i :: 0 <= i < |items| ==> items[i].status != status
    decreases |items|
  {
    if items == [] then 0
    else
      assert forall i :: 1 <= i < |items| ==> items[i] == items[1..][i - 1];
      (if items[0].status == status then 1 else 0) + CountStatus(items[1..], status)
  }

  /** Only two statuses exist, so the two counts split the items. */
  lemma {:induction false} CountsPartition(items: seq<ComplianceItem>)
    ensures CountStatus(items, Compliant) + CountStatus(items, NonCompliant) == |items|
    decreases |items|
  {
    if items != [] {
      CountsPartition(items[1..]);
    }
  }

  /** The number of items whose serialised status is exactly `text`, as the endpoint counts them. */
  function CountStatusText(items: seq<ComplianceItem>, text: string): nat
    decreases |items|
  {
    if items == [] then 0
    else (if StatusText(items[0].status) == text then 1 else 0) + CountStatusText(items[1..], text)
  }

  /** Counting by the strings "Compliant" and "Non-Compliant" is counting by the two statuses. */
  lemma {:induction false} CountStatusTextIsCountStatus(items: seq<ComplianceItem>)
    ensures CountStatusText(items, "Compliant") == CountStatus(items, Compliant)
    ensures CountStatusText(items, "Non-Compliant") == CountStatus(items, NonCompliant)
    decreases |items|
  {
    if items != [] {
      CountStatusTextIsCountStatus(items[1..]);
    }
  }

  /** Step 3 and 4 of the audit: the items in asset order and their totals. */
  function Summarize(currentYear: int, assets: seq<HardwareAsset>, counts: seq<HostThreatCount>): (s: AuditSummary)
    ensures s.totalAssets == |assets| == |s.complianceItems|
    ensures forall i :: 0 <= i < |assets| ==>
      s.complianceItems[i] == Evaluate(currentYear, ThreatHosts(counts), counts, assets[i])
    ensures s.compliantCount == CountStatus(s.complianceItems, Compliant)
    ensures s.nonCompliantCount == CountStatus(s.complianceItems, NonCompliant)
    ensures s.compliantCount == CountStatusText(s.complianceItems, "Compliant")
    ensures s.nonCompliantCount == CountStatusText(s.complianceItems, "Non-Compliant")
    ensures s.compliantCount + s.nonCompliantCount == s.totalAssets
  {
    var threatHosts := ThreatHosts(counts);
    var items := seq(|assets|, i requires 0 <= i < |assets| => Evaluate(currentYear, threatHosts, counts, assets[i]));
    CountsPartition(items);
    CountStatusTextIsCountStatus(items);
    AuditSummary(items, |assets|, CountStatus(items, Compliant), CountStatus(items, NonCompliant))
  }

  /** The endpoint: a missing threat snapshot is a problem, anything else a summary. */
  function Audit(currentYear: int, assets: seq<HardwareAsset>, snapshot: Option<ThreatSummary>)
    : (r: Result<AuditSummary, string>)
    ensures r.Failure? <==> snapshot.None?
    ensures r.Failure? ==> r.error == FetchFailedMessage
    ensures r.Success? ==> r.value == Summarize(currentYear, assets, snapshot.value.hostThreatCounts)
  {
    match snapshot
    case None => Failure(FetchFailedMessage)
    case Some(summary) => Success(Summarize(currentYear, assets, summary.hostThreatCounts))
  }

  // ---------------------------------------------------------------------------
  // Properties of the audit

  /** Each item is Non-Compliant, and to be replaced, exactly when its device has a
      positive threat entry and is at least five years old; the rest are Compliant/Monitor. */
  lemma ItemPolicy(currentYear: int, assets: seq<HardwareAsset>, counts: seq<HostThreatCount>, i: int)
    requires 0 <= i < |assets|
    ensures var item := Summarize(currentYear, assets, counts).complianceItems[i];
      var hasThreat := exists k :: 0 <= k < |counts| && counts[k].hostname == assets[i].hostname && counts[k].threatCount > 0;
      && (item.status == NonCompliant <==> hasThreat && currentYear - assets[i].purchaseDate.year >= 5)
      && (item.status == NonCompliant <==> item.action == Replace)
      && (item.status == Compliant <==> item.action == Monitor)
      && item.reason == Reason(Decide(item.ageYears, hasThreat, item.threatCount))
  {
  }

  /** A hostname missing from the snapshot is no error: the item has no threats. */
  lemma AbsentHostIsThreatFree(currentYear: int, assets: seq<HardwareAsset>, counts: seq<HostThreatCount>, i: int)
    requires 0 <= i < |assets|
    requires forall k :: 0 <= k < |counts| ==> counts[k].hostname != assets[i].hostname
    ensures var item := Summarize(currentYear, assets, counts).complianceItems[i];
      item.threatCount == 0 && item.status == Compliant && item.action == Monitor
  {
  }

  /** No two snapshot entries name the same host (what the Simulator's GroupBy guarantees). */
  predicate HostnamesDistinct(counts: seq<HostThreatCount>) {
    NoDuplicates(seq(|counts|, i requires 0 <= i < |counts| => counts[i].hostname))
  }

  lemma MatchIsFirst(counts: seq<HostThreatCount>, hostname: string, k: int)
    requires HostnamesDistinct(counts)
    requires 0 <= k < |counts| && counts[k].hostname == hostname
    ensures IsFirstMatch(counts, hostname, k)
  {
    forall m | 0 <= m < k ensures counts[m].hostname != hostname {
      HostnamesDiffer(counts, m, k);
    }
  }

  /** Under distinct hostnames, two different entries name different hosts. */
  lemma HostnamesDiffer(counts: seq<HostThreatCount>, i: int, j: int)
    requires HostnamesDistinct(counts)
    requires 0 <= i < |counts| && 0 <= j < |counts| && i != j
    ensures counts[i].hostname != counts[j].hostname
  {
    var names := seq(|counts|, i requires 0 <= i < |counts| => counts[i].hostname);
    assert NoDuplicates(names);
    assert names[i] == counts[i].hostname && names[j] == counts[j].hostname;
  }

  /** With distinct snapshot hostnames, presence in the threat set and a positive count agree. */
  lemma DistinctHostsAgree(counts: seq<HostThreatCount>, hostname: string)
    requires HostnamesDistinct(counts)
    ensures hostname in ThreatHosts(counts) <==> FirstThreatCount(counts, hostname) > 0
  {
    if k :| 0 <= k < |counts| && counts[k].hostname == hostname {
      MatchIsFirst(counts, hostname, k);
      assert FirstThreatCount(counts, hostname) == counts[k].threatCount;
      assert hostname in ThreatHosts(counts) <==> counts[k].threatCount > 0 by {
        forall m | 0 <= m < |counts| && counts[m].hostname == hostname ensures m == k {
          if m != k {
            HostnamesDiffer(counts, m, k);
          }
        }
      }
    }
  }

  /** An empty inventory gives an empty summary. */
  lemma EmptyInventory(currentYear: int, counts: seq<HostThreatCount>)
    ensures Summarize(currentYear, [], counts) == AuditSummary([], 0, 0, 0)
  {
  }

  // ---------------------------------------------------------------------------
  // Worked examples

  const ExampleSnapshot: seq<HostThreatCount> := [HostThreatCount("DABC12", 3, 1, 1, 1, 0)]

  /** A six-year-old device with three threats is to be replaced. */
  lemma OldThreatenedDeviceIsReplaced()
    ensures var s := Summarize(2024, [HardwareAsset("ABC12", "DABC12", Date(2018, 6, 1), "Active")], ExampleSnapshot);
      && s.complianceItems[0].ageYears == 6 && s.complianceItems[0].threatCount == 3
      && s.complianceItems[0].status == NonCompliant && s.complianceItems[0].action == Replace
      && s.complianceItems[0].reason == Reason(AgedWithThreats(6, 3))
      && s.nonCompliantCount == 1 && s.compliantCount == 0
  {
  }

  /** A two-year-old device with threats is only monitored, and the reason says why. */
  lemma YoungThreatenedDeviceIsMonitored()
    ensures var s := Summarize(2024, [HardwareAsset("ABC12", "DABC12", Date(2022, 1, 1), "Active")], ExampleSnapshot);
      && s.complianceItems[0].ageYears == 2
      && s.complianceItems[0].status == Compliant && s.complianceItems[0].action == Monitor
      && s.complianceItems[0].reason == Reason(ThreatsButYoung(3, 2))
  {
    assert "DABC12" in ThreatHosts(ExampleSnapshot) by { assert ExampleSnapshot[0].hostname == "DABC12"; }
    assert IsFirstMatch(ExampleSnapshot, "DABC12", 0);
  }

  /** A nine-year-old device absent from the snapshot is compliant, with no threats detected. */
  lemma OldCleanDeviceIsCompliant()
    ensures var s := Summarize(2024, [HardwareAsset("XYZ99", "DXYZ99", Date(2015, 1, 1), "Active")], ExampleSnapshot);
      && s.complianceItems[0].ageYears == 9 && s.complianceItems[0].threatCount == 0
      && s.complianceItems[0].status == Compliant && s.complianceItems[0].action == Monitor
      && s.complianceItems[0].reason == Reason(AgedWithoutThreats(9))
  {
    assert "DXYZ99" !in ThreatHosts(ExampleSnapshot) by { assert ExampleSnapshot[0].hostname != "DXYZ99"; }
  }

  /** Each reason is its branch's interpolated template, for every age and count. */
  lemma AgedWithThreatsTemplate(age: int, count: int)
    ensures Reason(AgedWithThreats(age, count))
      == "Device is " + IntToString(age) + " years old and has " + IntToString(count) + " threat(s)"
  {
  }

  lemma ThreatsButYoungTemplate(count: int, age: int)
    ensures Reason(ThreatsButYoung(count, age))
      == "Device has " + IntToString(count) + " threat(s) but age is " + IntToString(age) + " years (< 5 years)"
  {
  }

  lemma AgedWithoutThreatsTemplate(age: int)
    ensures Reason(AgedWithoutThreats(age)) == "Device is " + IntToString(age) + " years old but no threats detected"
  {
  }

  lemma NothingToReportTemplate()
    ensures Reason(NothingToReport) == "Device is compliant"
  {
  }
}
