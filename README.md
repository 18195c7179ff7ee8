# AuditFlow compliance audit — a Dafny model

AuditFlow is made of two web services. The **Simulator** keeps a table of CVE
threat records, one per finding against a device hostname. It serves a
per-host threat summary and per-host details. The **Engine** keeps an
inventory of hardware assets. Its audit endpoint joins that inventory with the
Simulator's threat summary on the exact hostname. It then applies one rule: a
device with threats that is five or more years old is Non-Compliant and is to
be replaced; every other device is Compliant and is monitored. Finally it
counts the devices by status.

This project models that decision logic and the data that feeds it:

- `compliance.dfy` (module `Compliance`): the Engine's audit summary. It covers
  the age in calendar years, the threat-host set and the first-match count
  lookup, the four-branch rule with its reason texts, the items in inventory
  order, the totals, and the error result for a null snapshot.
- `threat_aggregation.dfy` (module `ThreatAggregation`): the Simulator's
  GroupBy summary and its per-host details filter.
- `asset_seeding.dfy` (module `AssetSeeding`): how the Engine seeds an empty
  inventory. Serial numbers are the snapshot hostnames minus a leading `D`/`d`,
  de-duplicated, or generated when there is no snapshot. A prefix of them
  becomes the assets, with hostname `"D" + serial`.
- `threat_seeding.dfy` (module `ThreatSeeding`): how the Simulator seeds its
  hostnames and threat records.
- `pipeline.dfy` (module `Pipeline`): what holds when the Engine audits the
  snapshot the Simulator produces.
- Supporting modules: `wrappers.dfy` (Option and Result), `sequences.dfy`
  (duplicate-free sequences and first-occurrence de-duplication, as LINQ's
  `Distinct` and `GroupBy` keys behave), `decimal.dfy` (how C# interpolation
  writes an `int`, with a reader that proves the rendering loses nothing),
  `identifiers.dfy` (random 5–8 character codes), `entities.dfy` and
  `dtos.dfy` (the stored entities and the exchanged records).

The clock read `DateTime.Now.Year` is the parameter `currentYear`. Every
random draw of the seeders is an input sequence. Status and action are closed
enumerations, because the audit only ever assigns two values of each;
`StatusText` and `ActionText` give their serialised strings. The reason text
of each branch is built by `Compliance.Reason`. `Compliance.ParseReason` reads
the branch, the age and the count back out of it, and the round trip is
proved. This shows that each template quotes exactly the numbers the branch
used.

On these points the model follows the code exactly:

- The age is `currentYear - purchaseYear` with no clamping. A purchase date in
  the future gives a negative age, and that age is accepted and quoted.
- "Has a threat" is true when ANY snapshot entry with that exact hostname has
  a positive count. The quoted count is taken from the FIRST entry with that
  hostname. The two are guaranteed to agree when snapshot hostnames are
  distinct, which `Compliance.DistinctHostsAgree` states and
  `Pipeline.LookupCountsRecords` shows the Simulator guarantees. They can
  disagree only when a hostname repeats, for instance when its first entry
  has count 0 and a later one a positive count.
- A threat response that deserialises to null makes the endpoint return a
  problem, "Failed to fetch threat data from Simulator". It is not replaced by
  an empty snapshot.
- The seeding loops `for (i = 0; i < random.Next(lo, hi + 1); i++)` draw a
  new bound at every test of the condition. The models take one bound per
  test and stop at the first index that reaches its bound. The count still
  lies in `[lo, hi]`.

## Model

| member | source | states |
|---|---|---|
| `Compliance.AgeYears` | AuditFlow.Engine/Program.cs:199 | age plus purchase year is the current year; the age is negative exactly when the purchase year lies in the future (no clamping) |
| `Compliance.ThreatHosts` | AuditFlow.Engine/Program.cs:190-193 | a hostname is in the set iff some snapshot entry with exactly that hostname has a positive threat count |
| `Compliance.FirstThreatCount` | AuditFlow.Engine/Program.cs:203-204 | the count of the first entry whose hostname is exactly equal; 0 when no entry matches |
| `Compliance.Decide` | AuditFlow.Engine/Program.cs:211-234 | exactly one of the four branches applies, each iff its two conditions hold (threshold 5, inclusive); it carries the age and count its reason quotes |
| `Compliance.ParseReasonOfReason` | AuditFlow.Engine/Program.cs:211-234 | every reason text reads back as its branch with the same age and threat count: the four templates are distinct and lose no number |
| `Compliance.ReasonInjective` | AuditFlow.Engine/Program.cs:211-234 | two different verdicts never produce the same reason text |
| `Compliance.AgedWithThreatsTemplate` | AuditFlow.Engine/Program.cs:215 | for every age and count the reason is "Device is {age} years old and has {count} threat(s)" |
| `Compliance.ThreatsButYoungTemplate` | AuditFlow.Engine/Program.cs:221 | for every count and age the reason is "Device has {count} threat(s) but age is {age} years (< 5 years)" |
| `Compliance.AgedWithoutThreatsTemplate` | AuditFlow.Engine/Program.cs:227 | for every age the reason is "Device is {age} years old but no threats detected" |
| `Compliance.NothingToReportTemplate` | AuditFlow.Engine/Program.cs:233 | the fourth branch's reason is "Device is compliant" |
| `Compliance.Evaluate` | AuditFlow.Engine/Program.cs:197-247 | the item copies SN, hostname and purchase date, carries the computed age and first-match count, is Non-Compliant iff the host is in the threat set and the age is at least 5, has action Replace iff Non-Compliant, and its reason is exactly the applied branch's template (which reads back as that branch) |
| `Compliance.CountStatus` | AuditFlow.Engine/Program.cs:253-254 | the number of items with a status is at most the item count, and zero iff no item has it |
| `Compliance.CountsPartition` | AuditFlow.Engine/Program.cs:249-255 | the Compliant and Non-Compliant counts add up to the number of items |
| `Compliance.Summarize` | AuditFlow.Engine/Program.cs:190-255 | one item per asset in inventory order, each the evaluation of its asset; total is the asset count; the two counts are the numbers of items whose serialised status is "Compliant" and "Non-Compliant", and they partition the items |
| `Compliance.Audit` | AuditFlow.Engine/Program.cs:178-255 | fails with the fetch-failed message iff the snapshot is missing; otherwise yields the summary over the snapshot's entries |
| `Compliance.ItemPolicy` | AuditFlow.Engine/Program.cs:202-234 | an item is Non-Compliant iff some entry with its hostname has a positive count and the device is at least 5 years old; Non-Compliant iff Replace, Compliant iff Monitor; its reason is the template of the branch that applied |
| `Compliance.AbsentHostIsThreatFree` | AuditFlow.Engine/Program.cs:202-204 | a hostname absent from the snapshot is no error: count 0, Compliant, Monitor |
| `Compliance.MatchIsFirst` | AuditFlow.Engine/Program.cs:203-204 | with distinct snapshot hostnames, any matching entry is the first match |
| `Compliance.DistinctHostsAgree` | AuditFlow.Engine/Program.cs:190-204 | with distinct snapshot hostnames, membership in the threat set holds iff the looked-up count is positive |
| `Compliance.EmptyInventory` | AuditFlow.Engine/Program.cs:249-255 | an empty inventory gives no items and three zero totals |
| `Compliance.OldThreatenedDeviceIsReplaced` | AuditFlow.Engine/Program.cs:211-215 | a device bought in 2018 with 3 threats, audited in 2024, is 6 years old, Non-Compliant, to be replaced |
| `Compliance.YoungThreatenedDeviceIsMonitored` | AuditFlow.Engine/Program.cs:217-221 | the same device bought in 2022 is 2 years old, Compliant, monitored, with the "< 5 years" reason |
| `Compliance.OldCleanDeviceIsCompliant` | AuditFlow.Engine/Program.cs:223-227 | a device bought in 2015 and absent from the snapshot is 9 years old, count 0, Compliant, "no threats detected" |
| `Dtos.StatusText` | AuditFlow.Engine/Program.cs:253-254 | the serialised status is "Compliant" iff Compliant and "Non-Compliant" iff Non-Compliant |
| `Compliance.CountStatusTextIsCountStatus` | AuditFlow.Engine/Program.cs:253-254 | counting items whose status string equals "Compliant" (resp. "Non-Compliant") gives the count of the Compliant (resp. Non-Compliant) status |
| `Dtos.ActionText` | AuditFlow.Engine/Program.cs:214-232 | the serialised action is "Replace" iff Replace and "Monitor" iff Monitor |
| `Decimal.IntToString` | AuditFlow.Engine/Program.cs:215 | an interpolated `int` is non-empty, starts with '-' iff negative, and is all digits otherwise |
| `Decimal.ReadIntOfIntToString` | AuditFlow.Engine/Program.cs:215 | reading an interpolated integer back from the front of a text gives the integer and the text after it |
| `Decimal.IntToStringInjective` | AuditFlow.Engine/Program.cs:221 | different integers are rendered as different texts |
| `ThreatAggregation.Group` | AuditFlow.Simulator/Program.cs:118 | the group has exactly as many records as there are records with that exact hostname; each of its records is one of the input records and has that hostname; non-empty iff some record has the hostname |
| `ThreatAggregation.GroupMultiset` | AuditFlow.Simulator/Program.cs:118 | the group holds exactly the records with that exact hostname, each as many times as it was recorded, and no other record |
| `ThreatAggregation.CountSeverity` | AuditFlow.Simulator/Program.cs:123-126 | the number of records whose severity is exactly the given text, at most the group size |
| `ThreatAggregation.Entry` | AuditFlow.Simulator/Program.cs:119-127 | the entry of a group is keyed by the group's hostname |
| `ThreatAggregation.Entries` | AuditFlow.Simulator/Program.cs:117-128 | one entry per key, in key order, each the entry of its key |
| `ThreatAggregation.Summarize` | AuditFlow.Simulator/Program.cs:115-135 | total threats is the record count, total hosts the entry count, and each entry is the aggregate of its own hostname's records |
| `ThreatAggregation.Details` | AuditFlow.Simulator/Program.cs:143-160 | echoes the requested hostname; total count is the number of CVEs listed; every CVE comes from a record with exactly that hostname; as many CVEs as the host has records |
| `ThreatAggregation.SummaryKeys` | AuditFlow.Simulator/Program.cs:117-121 | the entries' hostnames are the records' hostnames de-duplicated, first occurrence first |
| `ThreatAggregation.SummaryInFirstAppearanceOrder` | AuditFlow.Simulator/Program.cs:117-121 | entries come in the order in which their hostnames first appear among the records |
| `ThreatAggregation.SummaryHostsDistinct` | AuditFlow.Simulator/Program.cs:117-121 | entry hostnames are pairwise distinct and each one is the hostname of some record |
| `ThreatAggregation.SummaryCoversHosts` | AuditFlow.Simulator/Program.cs:117-121 | every record's hostname has an entry |
| `ThreatAggregation.EntryCountsItsHost` | AuditFlow.Simulator/Program.cs:118-122 | each entry's threat count is the number of records with exactly its hostname, and at least 1 |
| `ThreatAggregation.TotalHostsIsDistinctHostnames` | AuditFlow.Simulator/Program.cs:129-134 | total hosts is the number of distinct hostnames among the records |
| `ThreatAggregation.SumOfCountsIsTotal` | AuditFlow.Simulator/Program.cs:117-133 | the entries' threat counts add up to total threats, which is the number of records |
| `ThreatAggregation.SeverityCountsBound` | AuditFlow.Simulator/Program.cs:123-126 | the four severity counts of a group add up to at most its size, and to exactly its size when every severity is one of the four names |
| `ThreatAggregation.EntrySeverities` | AuditFlow.Simulator/Program.cs:122-126 | for each entry, Critical + High + Medium + Low is at most its threat count, with equality when all severities are known names |
| `ThreatAggregation.GroupSeverityCount` | AuditFlow.Simulator/Program.cs:123-126 | counting a severity within a host's group gives the number of that host's records with exactly that severity |
| `ThreatAggregation.EntryCountsSeverities` | AuditFlow.Simulator/Program.cs:119-127 | a host's entry counts its Critical, High, Medium and Low records exactly |
| `ThreatAggregation.EntrySeverityRecords` | AuditFlow.Simulator/Program.cs:117-127 | every summary entry's Critical, High, Medium and Low counts are the numbers of its host's records with exactly that severity |
| `ThreatAggregation.DetailsAgreeWithSummary` | AuditFlow.Simulator/Program.cs:145-159 | with the details filter taken as exact hostname equality, a host's details list as many CVEs as its summary entry counts |
| `ThreatAggregation.DetailsOfUnknownHost` | AuditFlow.Simulator/Program.cs:145-160 | a hostname without records gets empty details with count 0 |
| `ThreatAggregation.DetailsListEveryRecord` | AuditFlow.Simulator/Program.cs:145-158 | the details of a hostname list the CVE of every record with exactly that hostname |
| `Sequences.Distinct` | AuditFlow.Engine/Program.cs:73 | the result has no duplicates and holds exactly the values of the input |
| `Sequences.DistinctFirstOccurrenceOrder` | AuditFlow.Engine/Program.cs:73 | de-duplicated values come in the order of their first occurrence |
| `Sequences.DistinctCardinality` | AuditFlow.Engine/Program.cs:73 | de-duplication keeps as many values as there are distinct ones |
| `Sequences.DistinctOfNoDuplicates` | AuditFlow.Engine/Program.cs:73 | de-duplicating a duplicate-free sequence changes nothing |
| `AssetSeeding.StripDevicePrefix` | AuditFlow.Engine/Program.cs:70-72 | one leading 'D' or 'd' is removed; any other hostname is kept whole |
| `AssetSeeding.HostnameRoundTrip` | AuditFlow.Engine/Program.cs:69-108 | "D" + strip(h) == h exactly when h starts with upper-case 'D' |
| `AssetSeeding.SerialsFromSnapshot` | AuditFlow.Engine/Program.cs:69-74 | serials have no duplicates, each is a stripped snapshot hostname, every stripped hostname is one of them, and a non-empty snapshot gives some |
| `AssetSeeding.SerialsInFirstOccurrenceOrder` | AuditFlow.Engine/Program.cs:69-74 | serials come in the order in which they first appear among the stripped snapshot hostnames, which decides the prefix that seeding keeps |
| `AssetSeeding.GenerateSerialNumbers` | AuditFlow.Engine/Program.cs:84-99 | between 5 and 10 serials, the k-th spelled by the k-th code draw; the loop stops at the first bound draw it reaches |
| `AssetSeeding.CollectSerialNumbers` | AuditFlow.Engine/Program.cs:60-99 | the snapshot's serials when the fetch gave entries, otherwise 5 to 10 generated ones; never empty |
| `AssetSeeding.SelectSerialNumbers` | AuditFlow.Engine/Program.cs:102-103 | the selected serials are the prefix of length min(deviceCount, count) |
| `AssetSeeding.CreateAssets` | AuditFlow.Engine/Program.cs:105-132 | one Active asset per selected serial in order, hostname "D" + serial, bought in 2018 in the first half and 2024 in the second, every date valid |
| `AssetSeeding.SnapshotAssetsDistinct` | AuditFlow.Engine/Program.cs:69-108 | assets seeded from a snapshot have distinct serials and distinct hostnames |
| `AssetSeeding.SnapshotAssetsMatchSnapshot` | AuditFlow.Engine/Program.cs:65-108 | when every snapshot hostname starts with 'D', every seeded asset's hostname is a snapshot hostname |
| `AssetSeeding.LowerCasePrefixLosesMatch` | AuditFlow.Engine/Program.cs:70-108 | a snapshot hostname "d" + serial yields that serial and the asset hostname "D" + serial, which no longer equals it |
| `Entities.DaysInMonth` | AuditFlow.Engine/Program.cs:115 | 28 to 31 days; 29 exactly for February of a leap year |
| `Identifiers.RandomCode` | AuditFlow.Simulator/Program.cs:64-70 | a code of 5 to 8 characters, each from A–Z or 0–9, the k-th being the alphabet entry of the k-th draw |
| `ThreatSeeding.GenerateHostname` | AuditFlow.Simulator/Program.cs:64-70 | "D" followed by the drawn 5–8 character code |
| `ThreatSeeding.GenerateHostnames` | AuditFlow.Simulator/Program.cs:72-76 | between 10 and 15 hostnames of the seeded shape, the k-th from the k-th code draw |
| `ThreatSeeding.GenerateThreats` | AuditFlow.Simulator/Program.cs:78-95 | one record per threat draw in order; each names a generated hostname and one of the four severities |
| `ThreatSeeding.SeededThreatHostnames` | AuditFlow.Simulator/Program.cs:81 | every seeded record's hostname has the seeded shape |
| `Pipeline.SnapshotHostnamesDistinct` | AuditFlow.Simulator/Program.cs:117-121 | the Simulator's snapshot has the distinct hostnames the Engine's lookups rely on |
| `Pipeline.LookupCountsRecords` | AuditFlow.Engine/Program.cs:190-204 | against the Simulator's snapshot, a host's looked-up count is its record count, and it is in the threat set iff it has a record |
| `Pipeline.AuditAgainstSimulator` | AuditFlow.Engine/Program.cs:197-234 | against the Simulator's snapshot, an asset is Non-Compliant iff some CVE record names its hostname and it is at least 5 years old; count > 0 iff it has a record |
| `Pipeline.SummaryOfSeededThreats` | AuditFlow.Simulator/Program.cs:64-121 | every entry of the summary of seeded threats has a hostname starting with 'D' |
| `Pipeline.SeededAssetsHaveRecords` | AuditFlow.Engine/Program.cs:65-108 | an inventory seeded from the summary of seeded threats names only hostnames that have CVE records |

## Left out

- HTTP plumbing: endpoint registration, `Results.Ok`/`Results.Problem`, the
  `HttpClient` calls, CORS, OpenAPI and port configuration. In
  `Compliance.Audit`, `None` is a response body that deserialises to null.
  In `AssetSeeding.CollectSerialNumbers`, `None` is any failed or empty fetch,
  because the seeder catches every exception of the fetch.
- EF Core persistence (`EnsureCreated`, `AddRange`, `SaveChanges`,
  `ToListAsync`) and the "seed only if the table is empty" guard. The asset
  and threat tables are given sequences. The database-assigned record id is
  0 in the model.
- The SQL `Where` of the details endpoint compares hostnames under the
  database's collation. The model uses exact equality, as the in-memory
  GroupBy does. `ThreatAggregation.DetailsAgreeWithSummary` holds only under
  that exact equality: with a case-insensitive collation the details may list
  more records than the summary counts. SQL Server's `=` also ignores trailing
  blanks under every collation, so "DX" and "DX " select the same details
  although the summary counts them as two hosts.
- The order of the CVEs in the details: the SQL `Where` has no `ORDER BY`, so
  the database chooses it. The model lists them in record order, and
  `ThreatAggregation.GroupMultiset` states which records are listed and how
  often, not their order.
- The 5-second threat cache of the audit endpoint. It is a concurrent
  dictionary keyed by wall-clock time, so it involves both concurrency and
  the clock.
- Clock reads: the audit's current year is a parameter, and the seeded
  detection dates are inputs.
- `Random`: every draw is an input (bounds, alphabet indices, table indices,
  CVE numbers, months and days). `ThreatSeeding.GenerateThreats` takes the
  threat draws as a sequence and does not restate that their number lies in
  [50, 100].
- The endpoint's blanket `try/catch`, which turns any exception into the
  problem "Error during audit: {message}". Among the paths that reach it,
  none modelled: a threat fetch that fails (HTTP error, time-out, an empty or
  invalid body) throws inside `GetFromJsonAsync`; a response whose
  `HostThreatCounts` is JSON null throws at the `Where` that builds the
  threat-host set; and a `null` element of that list throws when the `Where`
  reads its `ThreatCount`. The model takes the snapshot's entry list as always
  present and its entries as never null.
- C# `int` is 32 bits wide; ages, counts and totals are unbounded integers
  here. No realistic input comes near the limit.
- C# interpolation writes an `int` with the current culture's number format.
  `Decimal.IntToString` uses the invariant format: ASCII digits and '-' for a
  negative sign. Under a culture with a different negative sign, the reason
  text for a negative age or count differs from the model's.
- The React dashboard, which only renders and colours the summary.
- The two seeding phases are modelled as separate steps:
  `CollectSerialNumbers`, `SelectSerialNumbers` and `CreateAssets`. No single
  method chains them, because the date draws depend on the number of
  selected serials.
- `ThreatAggregation.Entry`: its own contract states only the key; its threat
  count is stated by `EntryCountsItsHost` and its severity counts by
  `EntryCountsSeverities` and `EntrySeverityRecords`.
