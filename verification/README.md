# verbundkarte merge pipeline, modelled in Dafny

`merge.py` builds the data behind the map of German transit associations
("Verkehrs- und Tarifverbünde"). It takes the county layer of the VG250
administrative areas, the curated assignment of counties (`kreis`, by
regional key `ars`) to transit organisations (`org`), the curated
authorities table and the Wikidata query result for transit districts. It
joins them into one table with a row for every organisation of the
authorities table and every organisation assigned to a geofactor-4
district (exactly one per organisation when the authorities and the
Wikidata ids have no duplicates). An organisation that only appears in the
assignments, with no district of geofactor 4, gets no row. It writes that
table as a GeoJSON FeatureCollection (section 3.3 of RFC 7946). The
collection carries two foreign members, `metadata` and `name` (section 6.1
of RFC 7946), and has one feature per line.

This project models that pipeline as pure functions over sequences of
immutable records and proves what each stage guarantees.

- **Records.** `records.dfy` holds:
  - the records `District`, `Assignment`, `Authority`, `WikidataRow`,
    `JoinedRow`, `Area` and `MergedRow`;
  - a geometry type that only records unions;
  - grouped tables, modelled as `seq<(string, V)>`.
- **Strings.** `strings.dfy` holds:
  - Python's code-point order on strings;
  - the `sorted(set(...))` listing, with its uniqueness;
  - the `[:2]` slice.
- **Aggregation.** `aggregate.dfy` models these steps of `merge()`:
  - the geofactor-4 filter;
  - the inner merge with the assignments;
  - `dissolve(by='org')`;
  - the two per-organisation groupings: the district list and the sorted
    state codes.
- **Joins.** `joins.dfy` models the pandas merges:
  - the outer merge on `org`: sorted keys (the documented behaviour of
    pandas 2.2 and later), a per-key cross product, and NaN (`None`) for a
    missing side;
  - the two left merges on `org`;
  - the left merge of the authorities' `wikidata` against the entities' `td`.
- **Wikidata ids.** `wikidata.dfy` models the `td` rewrite as the
  regular-expression replace the code performs: every `.` of the entity URI
  pattern is a wildcard, and every non-overlapping match is removed. The
  model does not treat it as a plain prefix removal.
- **Writer.** `writer.dfy` models the writer:
  - the exact line layout of the file;
  - the metadata object `json.dumps` produces, with default separators;
  - the file text as lines joined by newline terminators;
  - reading the file back.
- **Pipeline.** `pipeline.dfy` composes the stages into `Merge` and proves
  what holds for every row of the result.

A side the merge found no partner for is `None` in the model, where the
source has NaN. Geometry unions are uninterpreted terms
`Union([...parts in table order])`.

## Model

| member | source | states |
|---|---|---|
| Aggregate.FilterLand | merge.py:76 | a district is kept exactly when it is in the layer and its geofactor is 4 (`VG250_GEOFAKTOR_LAND_MIT_STRUKTUR`) |
| Aggregate.FilterLandAppend | merge.py:76 | filtering a concatenation is the concatenation of the filtered parts, so kept districts stay in layer order |
| Aggregate.FilterLandKeepsAllLand | merge.py:76 | a layer of only geofactor-4 districts passes through unchanged |
| Aggregate.MatchDistrict | merge.py:79 | the joined rows of one district are exactly its pairings with assignments whose `kreis` equals its `ars`, cut to kreis, org and geometry |
| Aggregate.JoinAssignments | merge.py:79 | a joined row exists exactly when some district and some assignment agree on `ars == kreis`; the row carries only kreis, org and geometry |
| Aggregate.UnmatchedAssignmentDropped | merge.py:79 | an assignment whose `kreis` names no district contributes no joined row |
| Aggregate.MatchedAssignmentKept | merge.py:79 | every matching assignment and district pair yields its joined row |
| Aggregate.DissolveKeys | merge.py:80 | dissolving for a list of present keys yields one area per key, in key order, each the union of that organisation's shapes with its first `kreis` |
| Aggregate.Dissolve | merge.py:80 | dissolve yields strictly sorted organisations, exactly those of the joined rows, each area built from its own group |
| Aggregate.DissolveOnePerOrg | merge.py:80 | every organisation of the joined rows has exactly one dissolved area |
| Aggregate.KreisOf | merge.py:83 | an organisation's district list holds exactly the `kreis` values assigned to it |
| Aggregate.KreisOfAppend | merge.py:83 | the list for a concatenated table is the list for the first part followed by the list for the second, so table order and duplicates are kept |
| Aggregate.KreisOfCount | merge.py:83 | the list has one entry per assignment row of the organisation, so duplicates are kept |
| Aggregate.GroupAssignments | merge.py:83 | the group of an organisation holds exactly the assignment rows naming it |
| Aggregate.KreisOfNonEmpty | merge.py:83 | an organisation with an assignment has a non-empty list |
| Aggregate.KreisLists | merge.py:83 | the grouped table has one entry per assigned organisation, keys strictly sorted, each holding that organisation's non-empty district list |
| Aggregate.KreisListsFor | merge.py:83 | the table built over given keys has exactly those keys and each organisation's list |
| Aggregate.LeadingZeroKept | merge.py:73 | the district key "03159" comes out of the grouping as "03159" |
| Aggregate.ThreeDistrictsKreisList | merge.py:83 | districts "01001", "01002", "05111" are listed as given |
| Strings.StateCode | merge.py:84 | the state code is the first two characters of the key, or the whole key when it is shorter |
| Aggregate.StateCodesOf | merge.py:84 | the codes are strictly sorted, hence duplicate-free, and are exactly the two-character prefixes of the organisation's districts |
| Aggregate.StateCodesNonEmpty | merge.py:84 | an organisation with an assignment has at least one state code |
| Aggregate.StateCodeLists | merge.py:84 | the grouped table has one entry per assigned organisation, keys strictly sorted, each holding its non-empty code list |
| Aggregate.StateCodeListsFor | merge.py:84 | the table built over given keys has exactly those keys and each organisation's codes |
| Aggregate.ThreeDistrictsStateCodes | merge.py:84 | districts "01001", "01002", "05111" give the state codes ["01", "05"] |
| Aggregate.SortedDistinctOfThreeCodes | merge.py:84 | `sorted(set(["01", "01", "05"]))` is ["01", "05"] |
| Strings.LessIrreflexive | merge.py:84 | no string sorts before itself |
| Strings.LessTransitive | merge.py:84 | string order is transitive |
| Strings.LessTotal | merge.py:84 | of two different strings one sorts before the other |
| Strings.Insert | merge.py:84 | inserting into a strictly sorted list keeps it strictly sorted and adds exactly the new element |
| Strings.SortedDistinct | merge.py:84 | `sorted(set(xs))` is strictly sorted, has exactly the elements of `xs`, and is no longer than `xs` |
| Strings.SortedIsDistinct | merge.py:84 | a strictly sorted list has no duplicates |
| Strings.StrictlySortedUnique | merge.py:84 | two strictly sorted lists with the same elements are equal, so the sorted set is determined by its elements |
| Joins.AreasOf | merge.py:86 | the areas of one key are exactly the areas with that organisation |
| Joins.AuthoritiesOf | merge.py:86 | the authority rows of one key are exactly the rows with that organisation |
| Joins.Cross | merge.py:86 | the per-key product has one row per pair of left and right options, and nothing else |
| Joins.KeyRows | merge.py:86 | one key yields at least one row; it yields exactly one when each side has at most one row; a side is filled exactly when that side has rows for the key |
| Joins.KeyRowsCover | merge.py:86 | every area and every authority row of a key appears in some row of that key |
| Joins.OuterRowsCover | merge.py:86 | over a key list, every key, every area and every authority row of a listed key appears in the output |
| Joins.OuterJoin | merge.py:86 | the outer merge's organisations are exactly the union of both sides' organisations; each side is filled exactly when it has rows for that organisation; no row of either side is lost |
| Joins.OuterJoinOnePerOrg | merge.py:86 | with unique organisations on both sides, the outer merge has one row per organisation in sorted order |
| Joins.OuterRowsOnePerKey | merge.py:86 | with unique organisations on both sides, the rows over a strictly sorted key list carry exactly those keys |
| Joins.AtMostOneArea | merge.py:86 | unique area organisations give each key at most one area |
| Joins.AtMostOneAuthority | merge.py:86 | unique authority organisations give each key at most one authority row |
| Joins.Lookup | merge.py:87-88 | the values a grouped table holds for a key are exactly its entries under that key |
| Joins.LookupAtMostOne | merge.py:87-88 | a table with unique keys has at most one value per key |
| Joins.LookupNonEmpty | merge.py:87-88 | a key present in the table has a value |
| Joins.SetColumn | merge.py:87-88 | setting one list column changes that column and nothing else |
| Joins.ExpandList | merge.py:87-88 | one left row becomes one row per table entry for its organisation, in table order, each holding that entry; with no entry it stays as one row with the column unset |
| Joins.JoinList | merge.py:87-88 | a left merge drops no row; each output row is an input row with only the column added; a set column holds the table's entry for the row's organisation; an unset column means the table has no such organisation |
| Joins.JoinListKeepsRows | merge.py:87-88 | every input row of a left merge survives, with its organisation, into the output |
| Joins.JoinListHasMatch | merge.py:87-88 | every pairing of a left row with a table entry for its organisation appears in the output |
| Joins.ExpandListSingle | merge.py:87-88 | with unique table keys, a left row becomes exactly one row |
| Joins.JoinListUniqueKeys | merge.py:87-88 | with unique table keys, the left merge keeps the row count and is row-by-row the input with the column added |
| Joins.WikidataMatches | merge.py:89 | the entities matching a key are exactly those whose `td` equals it, and a missing key matches nothing |
| Joins.WikidataMatchesAtMostOne | merge.py:89 | unique entity ids give each key at most one match |
| Joins.ExpandWikidata | merge.py:89 | one row becomes one row per matching entity, in entity order, each carrying that entity; when nothing matches it stays as one row with the Wikidata fields null |
| Joins.JoinWikidata | merge.py:89 | the Wikidata merge drops no row and changes only the Wikidata fields; a filled row matched on its authority's `wikidata`; a null row has no matching entity |
| Joins.JoinWikidataKeepsRows | merge.py:89 | every input row survives the Wikidata merge, with its organisation |
| Joins.JoinWikidataHasMatch | merge.py:89 | every pairing of a row with an entity whose `td` equals its `wikidata` appears, so an id the query returns on several rows (one per combination of its optional properties) repeats the row |
| Joins.ExpandWikidataSingle | merge.py:89 | with unique entity ids, a row becomes exactly one row |
| Joins.JoinWikidataUniqueIds | merge.py:89 | with unique entity ids, the Wikidata merge keeps the row count and enriches row by row |
| Wikidata.StripEntityPrefix | merge.py:63 | the replace never lengthens `td`, leaves a value with no match unchanged, and shortens a value with a match at the start by at least the pattern's length |
| Wikidata.StripLeadingPattern | merge.py:63 | a value that starts with the pattern is stripped exactly as the rest of the value is: the leading occurrence alone is removed |
| Wikidata.StripAtMatch | merge.py:63 | a match where the scan stands, literal or through the `.` wildcard, is removed and the scan resumes after it |
| Wikidata.StripKeepsChar | merge.py:63 | a character where no match starts is kept and the scan moves one character on |
| Wikidata.StripAfterStretch | merge.py:63 | a match anywhere in the value is removed: the text before it, in which no match starts, is kept unchanged, and the text after it is stripped on its own |
| Wikidata.PrefixedEntity | merge.py:63 | "x" followed by the entity URI of "Q1" becomes "xQ1": a match in the middle is removed too |
| Wikidata.StripEntityUri | merge.py:63 | an entity URI whose id holds no match strips to exactly the id |
| Wikidata.ShortIsMatchFree | merge.py:63 | a value shorter than the pattern holds no match |
| Wikidata.PatternMatchesItself | merge.py:63 | the pattern matches the literal entity prefix |
| Wikidata.EntityQ12345 | merge.py:63 | "http://www.wikidata.org/entity/Q12345" becomes "Q12345" |
| Wikidata.WildcardLookAlike | merge.py:63 | because `.` is a wildcard, "http://wwwXwikidata.org/entity/Q1" also becomes "Q1" |
| Wikidata.StripIds | merge.py:63 | the rewrite touches only the `td` column of each row, and keeps row count and order |
| Pipeline.JoinedOrgIsServed | merge.py:76-79 | every joined organisation has an assignment to a geofactor-4 district |
| Pipeline.ServedOrgIsJoined | merge.py:76-79 | every organisation assigned to a geofactor-4 district has a joined row |
| Pipeline.Areas | merge.py:76-80 | the dissolved table lists, strictly sorted, exactly the organisations assigned to a geofactor-4 district |
| Pipeline.Outer | merge.py:86 | after the outer merge, the organisations are exactly the authorities' organisations together with those assigned to a geofactor-4 district |
| Pipeline.WithKreisLists | merge.py:87 | the merge with the district lists is row-for-row: same number of rows, each row the outer merge's row with only the list column filled in |
| Pipeline.WithStateCodes | merge.py:88 | the merge with the state codes is row-for-row: same number of rows, each row the previous row with only the codes column filled in |
| Pipeline.ListMergesRowForRow | merge.py:86-88 | the two list merges neither add nor remove rows: row i after both keeps the outer merge's organisation, area, authority and Wikidata fields |
| Pipeline.Merge | merge.py:76-89 | the final table's organisations are exactly the authorities' organisations together with those assigned to a geofactor-4 district |
| Pipeline.OuterRowFacts | merge.py:86 | a row of the outer merge has an area exactly when its organisation is served, and an authority exactly when it is in the authorities table |
| Pipeline.KreisListRowFacts | merge.py:87 | after the district-list merge, a row has a list exactly when its organisation has assignments, and the list is that organisation's |
| Pipeline.StateCodeRowFacts | merge.py:88 | after the state-code merge, a row has codes exactly when its organisation has assignments, and the codes are that organisation's |
| Pipeline.MergeRowFacts | merge.py:86-89 | every final row carries the facts of every stage: which sides it found, both per-organisation lists, and its Wikidata match or the absence of one |
| Pipeline.ThroughKreisList | merge.py:87 | the district-list merge preserves the outer merge's facts |
| Pipeline.ThroughStateCodes | merge.py:88 | the state-code merge preserves the earlier facts |
| Pipeline.ThroughWikidata | merge.py:89 | the Wikidata merge preserves the earlier facts |
| Pipeline.ServedOrgIsAssigned | merge.py:79-83 | an organisation with a joined district has assignments |
| Pipeline.MergeHasOrg | merge.py:86-89 | every authority organisation and every organisation assigned to a geofactor-4 district has a row in the final table |
| Pipeline.AuthorityWithoutArea | merge.py:86-88 | a row of an authority with no geofactor-4 district carries the authority and no geometry; with no assignments both lists are null too |
| Pipeline.AreaWithoutAuthority | merge.py:86-89 | a row of a served organisation missing from the authorities keeps its area, its district list and its state codes; all authority and Wikidata fields are null |
| Pipeline.JoinListKeepsOrgs | merge.py:87-88 | a left merge with unique keys keeps the organisation column unchanged |
| Pipeline.JoinWikidataKeepsOrgs | merge.py:89 | the Wikidata merge with unique ids keeps the organisation column unchanged |
| Pipeline.MergeOnePerOrg | merge.py:86-89 | with one authority row per organisation and one entity per id, the final table has exactly one row per organisation, sorted by organisation |
| Writer.MetadataJson | merge.py:110-119 | the metadata object is a single line of text that starts with `{` and ends with `}`, and holds the given date at the `generated` value's position |
| Writer.FeatureLines | merge.py:124-126 | one line per feature, in feature order |
| Writer.Layout | merge.py:117-128 | the file has n + 7 lines: the five header lines, then feature i on line 5 + i, then `  ]` and `}` |
| Writer.UnindentFeatureLine | merge.py:125-126 | removing the indent and the separating comma from a feature line gives back the feature |
| Writer.LayoutRoundTrip | merge.py:117-128 | the features can be read back from the laid-out lines exactly |
| Writer.FeatureLineComma | merge.py:125-126 | a line for a feature ending in `}` ends with a comma exactly when another feature follows it |
| Writer.CommaExactlyBetweenFeatures | merge.py:124-126 | in the file, every feature line but the last ends with a comma, and the last does not |
| Writer.TwoFeatures | merge.py:117-128 | the complete line list written for two features |
| Writer.Render | merge.py:117-128 | the text of a non-empty file ends with a newline |
| Writer.Publish | merge.py:117-128 | the written file opens with the line `{` and ends with a newline |
| Writer.RenderRoundTrip | merge.py:117-128 | splitting the written text at newlines gives back the lines, provided no line contains a newline |
| Writer.HeaderHasNoNewline | merge.py:118-122 | no header line contains a newline, given single-line metadata |
| Writer.LayoutHasNoNewline | merge.py:117-128 | no line of the file contains a newline, given single-line metadata and features |
| Writer.PublishRoundTrip | merge.py:117-128 | read back line by line, the file has n + 7 lines and yields the features written |
| Writer.PublishedOn | merge.py:109-128 | the file written on a given date, read back line by line, is exactly the layout around that date's metadata object |

## Left out

- Creating directories and downloading the district layer into the cache (merge.py:24-36) are file-system and network I/O.
- The SPARQL request and the user agent (merge.py:40-60) are left out; the query result is an input sequence of `WikidataRow`.
- Reading the two CSV files and the district layer, and `to_file` (merge.py:71-75, 90), are library I/O. The tables are inputs and the merged table is an output.
- Writer.Render: the file is opened in text mode (merge.py:116), so Python writes each `'\n'` as the platform's line separator. The model always writes `'\n'`, which is what Python writes on POSIX systems.
- The current date (`datetime.now()`, merge.py:109) is a parameter of `Writer.MetadataJson`, constrained to the `YYYY-MM-DD` shape. The final `print` calls (merge.py:95-96) are not modelled.
- Serialising a row to its GeoJSON feature text (`to_json`, then `json.dumps` per feature, merge.py:106, 126) is computational JSON encoding. Features enter the writer as given single-line strings, so `Merge` and the writer are not connected by an encoder.
- The shape union inside `dissolve` is computational geometry. It is the uninterpreted term `Union(parts)` over the group's shapes in table order.
- Pandas' NaN is `None`. The model does not cover NaN in key columns: a NaN `org` or `kreis`, or NaN `td` values matching each other.
- Which side's columns win on name clashes, and the `_x`/`_y` suffixes pandas adds, are not modelled. The authorities' columns are kept whole in `Authority.curated`.
- Joins.OuterJoin: row order for a key with several rows on both sides follows the cross product, left-major. Duplicate `org` values in the authorities table are otherwise undefined in the source.
- Aggregate.JoinAssignments: the inner merge is modelled with the left table's (district) order; the row order pandas produces for an inner merge has varied between versions.
- Joins.OuterJoin: the outer merge sorts its keys lexicographically, as pandas does from version 2.2 on. Earlier versions listed the left keys first and then the right-only keys in table order. The "sorted by organisation" part of Pipeline.MergeOnePerOrg and Joins.OuterJoinOnePerOrg assumes the newer behaviour.
- Aggregate.DissolveKeys: the non-geometry column `kreis` takes the group's first value, as dissolve's default aggregation does; other columns are not carried.
