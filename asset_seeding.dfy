/**
 * How the Engine seeds an empty inventory: serial numbers are taken from the
 * Simulator's threat summary (hostname minus a leading 'D' or 'd', without
 * duplicates) or, failing that, generated; a prefix of them becomes the
 * assets, each with hostname "D" + serial and a purchase date in 2018 (first
 * half) or 2024 (second half). Every random draw is an input.
 */
module AssetSeeding {
  import opened Wrappers
  import opened Sequences
  import opened Entities
  import opened Dtos
  import opened Identifiers

  /** The serial number inside a hostname: one leading 'D' or 'd' removed (a case-insensitive StartsWith). */
  function StripDevicePrefix(hostname: string): (serial: string)
    ensures |hostname| > 0 && (hostname[0] == 'D' || hostname[0] == 'd') ==> [hostname[0]] + serial == hostname
    ensures !(|hostname| > 0 && (hostname[0] == 'D' || hostname[0] == 'd')) ==> serial == hostname
  {
    if |hostname| > 0 && (hostname[0] == 'D' || hostname[0] == 'd') then hostname[1..] else hostname
  }

  /** The hostname an asset is given for its serial number. */
  function HostnameOf(serial: string): string {
    DevicePrefix + serial
  }

  /** Rebuilding the hostname from its serial gives the hostname back exactly when it starts with 'D'. */
  lemma HostnameRoundTrip(hostname: string)
    ensures HostnameOf(StripDevicePrefix(hostname)) == hostname <==> |hostname| > 0 && hostname[0] == 'D'
  {
    if HostnameOf(StripDevicePrefix(hostname)) == hostname {
      assert hostname[0] == HostnameOf(StripDevicePrefix(hostname))[0];
    }
  }

  /** The snapshot's hostnames with the device prefix removed, in snapshot order. */
  function Stripped(counts: seq<HostThreatCount>): (stripped: seq<string>)
    ensures |stripped| == |counts|
    ensures forall i :: 0 <= i < |counts| ==> stripped[i] == StripDevicePrefix(counts[i].hostname)
  {
    seq(|counts|, i requires 0 <= i < |counts| => StripDevicePrefix(counts[i].hostname))
  }

  /** The serial numbers read from a threat snapshot, first occurrence first. */
  function SerialsFromSnapshot(counts: seq<HostThreatCount>): (serials: seq<string>)
    ensures NoDuplicates(serials)
    ensures forall k :: 0 <= k < |serials| ==>
      exists i :: 0 <= i < |counts| && serials[k] == StripDevicePrefix(counts[i].hostname)
    ensures forall i :: 0 <= i < |counts| ==> StripDevicePrefix(counts[i].hostname) in serials
    ensures |counts| > 0 ==> |serials| > 0
  {
    var stripped := Stripped(counts);
    assert forall k :: 0 <= k < |Distinct(stripped)| ==> Distinct(stripped)[k] in stripped;
    Distinct(stripped)
  }

  /** The serials come in the order in which they first appear among the stripped snapshot
      hostnames, so the prefix that seeding keeps is the earliest hosts of the snapshot. */
  lemma SerialsInFirstOccurrenceOrder(counts: seq<HostThreatCount>, i: int, j: int)
    requires 0 <= i < j < |SerialsFromSnapshot(counts)|
    ensures var serials := SerialsFromSnapshot(counts);
      serials[i] in Stripped(counts) && serials[j] in Stripped(counts) &&
      FirstIndex(Stripped(counts), serials[i]) < FirstIndex(Stripped(counts), serials[j])
  {
    assert SerialsFromSnapshot(counts) == Distinct(Stripped(counts));
    DistinctFirstOccurrenceOrder(Stripped(counts), i, j);
  }

  /** The fallback: between 5 and 10 random serial numbers (the loop redraws its bound at each test). */
  method GenerateSerialNumbers(bounds: seq<int>, codes: seq<seq<int>>) returns (serials: seq<string>)
    requires ValidBoundDraws(bounds, 5, 10)
    requires |codes| >= 10 && forall k :: 0 <= k < |codes| ==> ValidCodeDraw(codes[k])
    ensures 5 <= |serials| <= 10
    ensures forall k :: 0 <= k < |serials| ==> k < bounds[k] && serials[k] == RandomCode(codes[k])
    ensures bounds[|serials|] <= |serials|
  {
    serials := [];
    var i := 0;
    while i < bounds[i]
      invariant 0 <= i <= 10 && |serials| == i
      invariant forall k :: 0 <= k < i ==> k < bounds[k] && serials[k] == RandomCode(codes[k])
      decreases 10 - i
    {
      serials := serials + [RandomCode(codes[i])];
      i := i + 1;
    }
  }

  /** All serial numbers on offer: from the snapshot when it has entries, generated otherwise. */
  method CollectSerialNumbers(fetched: Option<seq<HostThreatCount>>, bounds: seq<int>, codes: seq<seq<int>>)
    returns (serials: seq<string>)
    requires ValidBoundDraws(bounds, 5, 10)
    requires |codes| >= 10 && forall k :: 0 <= k < |codes| ==> ValidCodeDraw(codes[k])
    ensures |serials| > 0
    ensures fetched.Some? && |fetched.value| > 0 ==> serials == SerialsFromSnapshot(fetched.value)
    ensures !(fetched.Some? && |fetched.value| > 0) ==>
      5 <= |serials| <= 10 && forall k :: 0 <= k < |serials| ==> serials[k] == RandomCode(codes[k])
  {
    serials := [];
    if fetched.Some? && |fetched.value| > 0 {
      serials := SerialsFromSnapshot(fetched.value);
    }
    if |serials| == 0 {
      serials := GenerateSerialNumbers(bounds, codes);
    }
  }

  /** The serial numbers that become assets: the first min(deviceCount, |serials|) of them. */
  function SelectSerialNumbers(serials: seq<string>, deviceCount: int): (selected: seq<string>)
    requires 5 <= deviceCount <= 10
    ensures |selected| == if deviceCount < |serials| then deviceCount else |serials|
    ensures selected == serials[..|selected|]
  {
    serials[..if deviceCount < |serials| then deviceCount else |serials|]
  }

  /** The drawn month and day of one purchase date. */
  datatype DateDraw = DateDraw(month: int, day: int)

  /** The first half of `count` devices were bought in 2018, the rest in 2024. */
  function PurchaseYear(index: int, count: int): int {
    if index < count / 2 then 2018 else 2024
  }

  /** Month in [1, 13) and day in [1, DaysInMonth + 1), as the seeder draws them. */
  predicate ValidDateDraws(draws: seq<DateDraw>, count: int) {
    |draws| >= count &&
    forall k :: 0 <= k < count ==>
      1 <= draws[k].month <= 12 && 1 <= draws[k].day <= DaysInMonth(PurchaseYear(k, count), draws[k].month)
  }

  /** One active asset per selected serial number, in order. */
  method CreateAssets(selected: seq<string>, draws: seq<DateDraw>) returns (assets: seq<HardwareAsset>)
    requires ValidDateDraws(draws, |selected|)
    ensures |assets| == |selected|
    ensures forall k :: 0 <= k < |assets| ==>
      assets[k] == HardwareAsset(selected[k], HostnameOf(selected[k]),
        Date(PurchaseYear(k, |selected|), draws[k].month, draws[k].day), "Active")
    ensures forall k :: 0 <= k < |assets| ==> IsValidDate(assets[k].purchaseDate)
  {
    assets := [];
    for i := 0 to |selected|
      invariant |assets| == i
      invariant forall k :: 0 <= k < i ==>
        assets[k] == HardwareAsset(selected[k], HostnameOf(selected[k]),
          Date(PurchaseYear(k, |selected|), draws[k].month, draws[k].day), "Active")
      invariant forall k :: 0 <= k < i ==> IsValidDate(assets[k].purchaseDate)
    {
      var serialNumber := selected[i];
      var purchaseDate := Date(if i < |selected| / 2 then 2018 else 2024, draws[i].month, draws[i].day);
      assets := assets + [HardwareAsset(serialNumber, HostnameOf(serialNumber), purchaseDate, "Active")];
    }
  }

  // ---------------------------------------------------------------------------
  // Properties of the seeding

  /** Serial numbers taken from a snapshot are never repeated, and neither are the hostnames built from them. */
  lemma SnapshotAssetsDistinct(counts: seq<HostThreatCount>, deviceCount: int)
    requires 5 <= deviceCount <= 10
    ensures var selected := SelectSerialNumbers(SerialsFromSnapshot(counts), deviceCount);
      forall i, j :: 0 <= i < j < |selected| ==> selected[i] != selected[j] && HostnameOf(selected[i]) != HostnameOf(selected[j])
  {
    var serials := SerialsFromSnapshot(counts);
    var selected := SelectSerialNumbers(serials, deviceCount);
    forall i, j | 0 <= i < j < |selected|
      ensures selected[i] != selected[j] && HostnameOf(selected[i]) != HostnameOf(selected[j])
    {
      assert selected[i] == serials[i] && selected[j] == serials[j];
      assert HostnameOf(selected[i])[1..] == selected[i] && HostnameOf(selected[j])[1..] == selected[j];
    }
  }

  /** When every snapshot hostname starts with 'D', every asset seeded from it carries one of those hostnames. */
  lemma SnapshotAssetsMatchSnapshot(counts: seq<HostThreatCount>, deviceCount: int, k: int)
    requires 5 <= deviceCount <= 10
    requires forall i :: 0 <= i < |counts| ==> |counts[i].hostname| > 0 && counts[i].hostname[0] == 'D'
    requires 0 <= k < |SelectSerialNumbers(SerialsFromSnapshot(counts), deviceCount)|
    ensures var hostname := HostnameOf(SelectSerialNumbers(SerialsFromSnapshot(counts), deviceCount)[k]);
      exists i :: 0 <= i < |counts| && hostname == counts[i].hostname
  {
    var serials := SerialsFromSnapshot(counts);
    var serial := SelectSerialNumbers(serials, deviceCount)[k];
    assert serial == serials[k];
    var i :| 0 <= i < |counts| && serial == StripDevicePrefix(counts[i].hostname);
    HostnameRoundTrip(counts[i].hostname);
  }

  /** A snapshot hostname starting with a lower-case 'd' loses its exact match: the serial
      drops the 'd' and the asset is named with an upper-case 'D'. */
  lemma LowerCasePrefixLosesMatch(entry: HostThreatCount, serial: string)
    requires entry.hostname == ['d'] + serial
    ensures SerialsFromSnapshot([entry]) == [serial]
    ensures HostnameOf(serial) == ['D'] + serial != entry.hostname
  {
    assert entry.hostname[1..] == serial;
    assert StripDevicePrefix(entry.hostname) == serial;
    DistinctOfNoDuplicates([serial]);
    assert HostnameOf(serial)[0] == 'D' != entry.hostname[0];
  }
}
