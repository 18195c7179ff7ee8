/**
 * The two stored entities: a hardware asset of the Engine's inventory and a
 * CVE threat record of the Simulator. A C# DateTime is modelled by its
 * calendar date; only its year is ever computed with.
 */
module Entities {

  datatype Date = Date(year: int, month: int, day: int)

  predicate IsLeapYear(year: int) {
    year % 4 == 0 && (year % 100 != 0 || year % 400 == 0)
  }

  /** The number of days of a month of the Gregorian calendar, as DateTime.DaysInMonth gives it. */
  function DaysInMonth(year: int, month: int): (days: int)
    requires 1 <= month <= 12
    ensures 28 <= days <= 31
    ensures days == 29 <==> month == 2 && IsLeapYear(year)
  {
    if month == 2 then (if IsLeapYear(year) then 29 else 28)
    else if month == 4 || month == 6 || month == 9 || month == 11 then 30
    else 31
  }

  /** A date the DateTime constructor accepts. */
  predicate IsValidDate(d: Date) {
    1 <= d.year <= 9999 && 1 <= d.month <= 12 && 1 <= d.day <= DaysInMonth(d.year, d.month)
  }

  /** An inventory record; `status` is stored but never read by the audit. */
  datatype HardwareAsset = HardwareAsset(sn: string, hostname: string, purchaseDate: Date, status: string)

  /** The four severity names a threat record is seeded with. */
  const Severities: seq<string> := ["Critical", "High", "Medium", "Low"]

  /** One CVE finding against a hostname; `id` is assigned by the database. */
  datatype CveThreat = CveThreat(
    id: int,
    hostname: string,
    cveId: string,
    severity: string,
    remediation: string,
    detectedDate: Date)
}
