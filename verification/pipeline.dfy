/** `merge()` end to end: from the four input tables to the final table and
    the publication file written from it. */
module Pipeline {
  import opened Wrappers
  import opened Strings
  import opened Records
  import opened Wikidata
  import opened Aggregate
  import opened Joins
  import opened Writer

  /** Organisation `o` has an assignment naming a land district of the layer. */
  predicate Served(o: string, districts: seq<District>, assignments: seq<Assignment>)
  {
    exists a, d :: a in assignments && d in districts
      && d.gf == LandWithStructure && d.ars == a.kreis && a.org == o
  }

  lemma JoinedOrgIsServed(districts: seq<District>, assignments: seq<Assignment>, j: JoinedRow)
    requires j in JoinAssignments(FilterLand(districts), assignments)
    ensures Served(j.org, districts, assignments)
  {
    var d, a :| d in FilterLand(districts) && a in assignments && JoinsWith(j, d, a);
  }

  lemma ServedOrgIsJoined(districts: seq<District>, assignments: seq<Assignment>, o: string)
    requires Served(o, districts, assignments)
    ensures exists j :: j in JoinAssignments(FilterLand(districts), assignments) && j.org == o
  {
    var a, d :| a in assignments && d in districts
      && d.gf == LandWithStructure && d.ars == a.kreis && a.org == o;
    assert JoinsWith(JoinedRow(a.kreis, a.org, d.geom), d, a);
  }

  /** The dissolved table: one area per served organisation, sorted by organisation. */
  function Areas(districts: seq<District>, assignments: seq<Assignment>): (r: seq<Area>)
    ensures StrictlySorted(AreaOrgs(r))
    ensures forall o :: o in AreaOrgs(r) <==> Served(o, districts, assignments)
  {
    var joined := JoinAssignments(FilterLand(districts), assignments);
    forall o | o in AreaOrgs(Dissolve(joined))
      ensures Served(o, districts, assignments)
    {
      var j :| j in joined && j.org == o;
      JoinedOrgIsServed(districts, assignments, j);
    }
    forall o | Served(o, districts, assignments)
      ensures o in AreaOrgs(Dissolve(joined))
    {
      ServedOrgIsJoined(districts, assignments, o);
    }
    Dissolve(joined)
  }

  /** `authorities_with_geometries` after the outer merge (merge.py line 86):
      a row for every authority organisation and every served one. */
  function Outer(districts: seq<District>, assignments: seq<Assignment>, authorities: seq<Authority>): (r: seq<MergedRow>)
    ensures forall o :: o in RowOrgs(r) <==>
      o in AuthorityOrgs(authorities) || Served(o, districts, assignments)
  {
    OuterJoin(Areas(districts, assignments), authorities)
  }

  /** ... after the left merge with the district lists (line 87). The grouped
      table has unique keys, so the merge is row-for-row. */
  function WithKreisLists(districts: seq<District>, assignments: seq<Assignment>, authorities: seq<Authority>): (r: seq<MergedRow>)
    ensures var outer := Outer(districts, assignments, authorities);
      |r| == |outer| && forall i :: 0 <= i < |r| ==> Extends(r[i], outer[i], KreisListColumn)
  {
    SortedIsDistinct(Keys(KreisLists(assignments)));
    JoinListUniqueKeys(Outer(districts, assignments, authorities), KreisLists(assignments), KreisListColumn);
    JoinList(Outer(districts, assignments, authorities), KreisLists(assignments), KreisListColumn)
  }

  /** ... after the left merge with the state codes (line 88), again row-for-row. */
  function WithStateCodes(districts: seq<District>, assignments: seq<Assignment>, authorities: seq<Authority>): (r: seq<MergedRow>)
    ensures var lists := WithKreisLists(districts, assignments, authorities);
      |r| == |lists| && forall i :: 0 <= i < |r| ==> Extends(r[i], lists[i], StateCodesColumn)
  {
    SortedIsDistinct(Keys(StateCodeLists(assignments)));
    JoinListUniqueKeys(WithKreisLists(districts, assignments, authorities), StateCodeLists(assignments), StateCodesColumn);
    JoinList(WithKreisLists(districts, assignments, authorities), StateCodeLists(assignments), StateCodesColumn)
  }

  /** The two list merges neither add nor remove rows: the final table before
      the Wikidata merge has the outer merge's rows, in order, with both list
      columns filled in and nothing else changed. */
  lemma ListMergesRowForRow(districts: seq<District>, assignments: seq<Assignment>, authorities: seq<Authority>)
    ensures |WithStateCodes(districts, assignments, authorities)| == |Outer(districts, assignments, authorities)|
    ensures forall i :: 0 <= i < |Outer(districts, assignments, authorities)| ==>
      var y := WithStateCodes(districts, assignments, authorities)[i];
      var x := Outer(districts, assignments, authorities)[i];
      y.org == x.org && y.area == x.area && y.authority == x.authority && y.wikidata == x.wikidata
  {
    var outer := Outer(districts, assignments, authorities);
    var lists := WithKreisLists(districts, assignments, authorities);
    var codes := WithStateCodes(districts, assignments, authorities);
    forall i | 0 <= i < |outer|
      ensures codes[i].org == outer[i].org && codes[i].area == outer[i].area
        && codes[i].authority == outer[i].authority && codes[i].wikidata == outer[i].wikidata
    {
      assert Extends(lists[i], outer[i], KreisListColumn);
      assert Extends(codes[i], lists[i], StateCodesColumn);
    }
  }

  /** The whole of `merge()` up to writing the files: the table after the
      left merge with the stripped Wikidata rows (line 89). */
  function Merge(districts: seq<District>, assignments: seq<Assignment>,
                 authorities: seq<Authority>, wikidata: seq<WikidataRow>): (r: seq<MergedRow>)
    ensures forall o :: o in RowOrgs(r) <==>
      o in AuthorityOrgs(authorities) || Served(o, districts, assignments)
  {
    var outer := Outer(districts, assignments, authorities);
    var withLists := WithKreisLists(districts, assignments, authorities);
    var withCodes := WithStateCodes(districts, assignments, authorities);
    JoinListKeepsRows(outer, KreisLists(assignments), KreisListColumn);
    JoinListKeepsRows(withLists, StateCodeLists(assignments), StateCodesColumn);
    JoinWikidataKeepsRows(withCodes, StripIds(wikidata));
    JoinWikidata(withCodes, StripIds(wikidata))
  }

  // ----------------------------------------------------- row-level contract

  /** What the outer merge fixes about a row: which sides it found. */
  predicate OuterFacts(x: MergedRow, districts: seq<District>, assignments: seq<Assignment>, authorities: seq<Authority>)
  {
    && (x.area.Some? <==> Served(x.org, districts, assignments))
    && (x.area.Some? ==> x.area.value in Areas(districts, assignments) && x.area.value.org == x.org)
    && (x.authority.Some? <==> x.org in AuthorityOrgs(authorities))
    && (x.authority.Some? ==> x.authority.value in authorities && x.authority.value.org == x.org)
  }

  /** What a list column holds after its left merge: the organisation's list
      exactly when the organisation has assignments. */
  predicate ListFacts(x: MergedRow, assignments: seq<Assignment>)
  {
    && (x.kreisList.Some? <==> x.org in AssignmentOrgs(assignments))
    && (x.kreisList.Some? ==> x.kreisList.value == KreisOf(assignments, x.org))
  }

  predicate CodeFacts(x: MergedRow, assignments: seq<Assignment>)
  {
    && (x.stateCodes.Some? <==> x.org in AssignmentOrgs(assignments))
    && (x.stateCodes.Some? ==> x.stateCodes.value == StateCodesOf(assignments, x.org))
  }

  /** What the Wikidata merge fixes about a row: its match, or that there is none. */
  predicate WikidataFacts(x: MergedRow, entities: seq<WikidataRow>)
  {
    && (x.wikidata.Some? ==>
          (x.wikidata.value in entities
           && x.authority.Some? && x.authority.value.wikidata == Some(x.wikidata.value.td)))
    && (x.wikidata.None? ==> forall w :: w in entities ==> WikidataKey(x) != Some(w.td))
  }

  lemma AreasOfNonEmpty(areas: seq<Area>, o: string)
    ensures |AreasOf(areas, o)| > 0 <==> o in AreaOrgs(areas)
  {
    if o in AreaOrgs(areas) {
      var a :| a in areas && a.org == o;
      assert a in AreasOf(areas, o);
    }
    HeadIsMember(AreasOf(areas, o));
  }

  lemma AuthoritiesOfNonEmpty(authorities: seq<Authority>, o: string)
    ensures |AuthoritiesOf(authorities, o)| > 0 <==> o in AuthorityOrgs(authorities)
  {
    if o in AuthorityOrgs(authorities) {
      var t :| t in authorities && t.org == o;
      assert t in AuthoritiesOf(authorities, o);
    }
    HeadIsMember(AuthoritiesOf(authorities, o));
  }

  lemma OuterRowFacts(districts: seq<District>, assignments: seq<Assignment>, authorities: seq<Authority>, x: MergedRow)
    requires x in Outer(districts, assignments, authorities)
    ensures OuterFacts(x, districts, assignments, authorities)
  {
    var areas := Areas(districts, assignments);
    AreasOfNonEmpty(areas, x.org);
    AuthoritiesOfNonEmpty(authorities, x.org);
  }

  /** One row of a left merge on `org`: the left row it came from, and what
      its column says about the table. */
  lemma JoinListRow(rows: seq<MergedRow>, t: Table<seq<string>>, c: ListColumn, x: MergedRow)
    returns (y: MergedRow)
    requires x in JoinList(rows, t, c)
    ensures y in rows && Extends(x, y, c)
    ensures Column(x, c).Some? ==> (x.org, Column(x, c).value) in t
    ensures Column(x, c).None? ==> x.org !in Keys(t)
  {
    y :| y in rows && Extends(x, y, c);
  }

  lemma JoinWikidataRow(rows: seq<MergedRow>, wd: seq<WikidataRow>, x: MergedRow)
    returns (y: MergedRow)
    requires x in JoinWikidata(rows, wd)
    ensures y in rows && Enriches(x, y)
    ensures WikidataFacts(x, wd)
  {
    y :| y in rows && Enriches(x, y);
  }

  lemma ListsFromTable(x: MergedRow, assignments: seq<Assignment>)
    requires x.kreisList.Some? ==> (x.org, x.kreisList.value) in KreisLists(assignments)
    requires x.kreisList.None? ==> x.org !in Keys(KreisLists(assignments))
    ensures ListFacts(x, assignments)
  {
    var t := KreisLists(assignments);
    if x.kreisList.Some? {
      var i :| 0 <= i < |t| && t[i] == (x.org, x.kreisList.value);
      assert Keys(t)[i] == x.org;
    }
  }

  lemma CodesFromTable(x: MergedRow, assignments: seq<Assignment>)
    requires x.stateCodes.Some? ==> (x.org, x.stateCodes.value) in StateCodeLists(assignments)
    requires x.stateCodes.None? ==> x.org !in Keys(StateCodeLists(assignments))
    ensures CodeFacts(x, assignments)
  {
    var t := StateCodeLists(assignments);
    if x.stateCodes.Some? {
      var i :| 0 <= i < |t| && t[i] == (x.org, x.stateCodes.value);
      assert Keys(t)[i] == x.org;
    }
  }

  lemma KreisListRowFacts(districts: seq<District>, assignments: seq<Assignment>, authorities: seq<Authority>, z: MergedRow)
    requires z in WithKreisLists(districts, assignments, authorities)
    ensures OuterFacts(z, districts, assignments, authorities) && ListFacts(z, assignments)
  {
    var w := JoinListRow(Outer(districts, assignments, authorities), KreisLists(assignments), KreisListColumn, z);
    ListsFromTable(z, assignments);
    OuterRowFacts(districts, assignments, authorities, w);
    ThroughKreisList(z, w, districts, assignments, authorities);
  }

  lemma StateCodeRowFacts(districts: seq<District>, assignments: seq<Assignment>, authorities: seq<Authority>, y: MergedRow)
    requires y in WithStateCodes(districts, assignments, authorities)
    ensures OuterFacts(y, districts, assignments, authorities) && ListFacts(y, assignments)
    ensures CodeFacts(y, assignments)
  {
    var z := JoinListRow(WithKreisLists(districts, assignments, authorities), StateCodeLists(assignments), StateCodesColumn, y);
    CodesFromTable(y, assignments);
    KreisListRowFacts(districts, assignments, authorities, z);
    ThroughStateCodes(y, z, districts, assignments, authorities);
  }

  /** Every row of the final table carries the facts of each stage: the
      outer merge's sides, both per-organisation lists, and its Wikidata match. */
  lemma MergeRowFacts(districts: seq<District>, assignments: seq<Assignment>,
                      authorities: seq<Authority>, wikidata: seq<WikidataRow>, x: MergedRow)
    requires x in Merge(districts, assignments, authorities, wikidata)
    ensures OuterFacts(x, districts, assignments, authorities)
    ensures ListFacts(x, assignments)
    ensures CodeFacts(x, assignments)
    ensures WikidataFacts(x, StripIds(wikidata))
  {
    var y := JoinWikidataRow(WithStateCodes(districts, assignments, authorities), StripIds(wikidata), x);
    StateCodeRowFacts(districts, assignments, authorities, y);
    ThroughWikidata(x, y, districts, assignments, authorities);
  }

  lemma ThroughKreisList(z: MergedRow, w: MergedRow, districts: seq<District>,
                         assignments: seq<Assignment>, authorities: seq<Authority>)
    requires Extends(z, w, KreisListColumn) && OuterFacts(w, districts, assignments, authorities)
    ensures OuterFacts(z, districts, assignments, authorities)
  {
    assert z.org == w.org && z.area == w.area && z.authority == w.authority;
  }

  lemma ThroughStateCodes(y: MergedRow, z: MergedRow, districts: seq<District>,
                          assignments: seq<Assignment>, authorities: seq<Authority>)
    requires Extends(y, z, StateCodesColumn)
    requires OuterFacts(z, districts, assignments, authorities) && ListFacts(z, assignments)
    ensures OuterFacts(y, districts, assignments, authorities) && ListFacts(y, assignments)
  {
    assert y.org == z.org && y.area == z.area && y.authority == z.authority && y.kreisList == z.kreisList;
  }

  lemma ThroughWikidata(x: MergedRow, y: MergedRow, districts: seq<District>,
                        assignments: seq<Assignment>, authorities: seq<Authority>)
    requires Enriches(x, y)
    requires OuterFacts(y, districts, assignments, authorities) && ListFacts(y, assignments) && CodeFacts(y, assignments)
    ensures OuterFacts(x, districts, assignments, authorities) && ListFacts(x, assignments) && CodeFacts(x, assignments)
  {
    assert x.org == y.org && x.area == y.area && x.authority == y.authority
      && x.kreisList == y.kreisList && x.stateCodes == y.stateCodes;
  }

  // ------------------------------------------------------ the named outcomes

  lemma ServedOrgIsAssigned(districts: seq<District>, assignments: seq<Assignment>, o: string)
    requires Served(o, districts, assignments)
    ensures o in AssignmentOrgs(assignments)
  {
    var a, d :| a in assignments && d in districts
      && d.gf == LandWithStructure && d.ars == a.kreis && a.org == o;
    var i :| 0 <= i < |assignments| && assignments[i] == a;
    assert AssignmentOrgs(assignments)[i] == o;
  }

  /** Every organisation the final table should list has a row in it. */
  lemma MergeHasOrg(districts: seq<District>, assignments: seq<Assignment>,
                    authorities: seq<Authority>, wikidata: seq<WikidataRow>, o: string)
    requires o in AuthorityOrgs(authorities) || Served(o, districts, assignments)
    ensures exists x :: x in Merge(districts, assignments, authorities, wikidata) && x.org == o
  {
    assert o in RowOrgs(Merge(districts, assignments, authorities, wikidata));
  }

  /** A row of an authority whose organisation is not assigned to any land
      district has the authority and no geometry. When the organisation has no
      assignments at all, both list columns are null as well. */
  lemma AuthorityWithoutArea(districts: seq<District>, assignments: seq<Assignment>,
                             authorities: seq<Authority>, wikidata: seq<WikidataRow>, x: MergedRow)
    requires x in Merge(districts, assignments, authorities, wikidata)
    requires x.org in AuthorityOrgs(authorities) && !Served(x.org, districts, assignments)
    ensures x.area.None? && x.authority.Some? && x.authority.value in authorities
    ensures x.org !in AssignmentOrgs(assignments) ==> x.kreisList.None? && x.stateCodes.None?
  {
    MergeRowFacts(districts, assignments, authorities, wikidata, x);
  }

  /** A row of a served organisation that is missing from the authorities
      table keeps its area and both lists, and every authority and Wikidata
      field is null. */
  lemma AreaWithoutAuthority(districts: seq<District>, assignments: seq<Assignment>,
                             authorities: seq<Authority>, wikidata: seq<WikidataRow>, x: MergedRow)
    requires x in Merge(districts, assignments, authorities, wikidata)
    requires Served(x.org, districts, assignments) && x.org !in AuthorityOrgs(authorities)
    ensures x.authority.None? && x.wikidata.None?
    ensures x.area.Some? && x.area.value in Areas(districts, assignments)
    ensures x.kreisList == Some(KreisOf(assignments, x.org))
    ensures x.stateCodes == Some(StateCodesOf(assignments, x.org))
  {
    ServedOrgIsAssigned(districts, assignments, x.org);
    MergeRowFacts(districts, assignments, authorities, wikidata, x);
  }

  // ---------------------------------------------------- one row per organisation

  lemma JoinListKeepsOrgs(rows: seq<MergedRow>, t: Table<seq<string>>, c: ListColumn)
    requires Distinct(Keys(t))
    ensures RowOrgs(JoinList(rows, t, c)) == RowOrgs(rows)
  {
    var r := JoinList(rows, t, c);
    JoinListUniqueKeys(rows, t, c);
    forall i | 0 <= i < |rows|
      ensures RowOrgs(r)[i] == RowOrgs(rows)[i]
    {
      assert Extends(r[i], rows[i], c);
    }
  }

  lemma JoinWikidataKeepsOrgs(rows: seq<MergedRow>, wd: seq<WikidataRow>)
    requires Distinct(Tds(wd))
    ensures RowOrgs(JoinWikidata(rows, wd)) == RowOrgs(rows)
  {
    var r := JoinWikidata(rows, wd);
    JoinWikidataUniqueIds(rows, wd);
    forall i | 0 <= i < |rows|
      ensures RowOrgs(r)[i] == RowOrgs(rows)[i]
    {
      assert Enriches(r[i], rows[i]);
    }
  }

  /** With one authority per organisation and one Wikidata entity per id, the
      final table has exactly one row per organisation, sorted by organisation:
      the three left merges add no rows because their keys are unique. */
  lemma MergeOnePerOrg(districts: seq<District>, assignments: seq<Assignment>,
                       authorities: seq<Authority>, wikidata: seq<WikidataRow>)
    requires Distinct(AuthorityOrgs(authorities)) && Distinct(Tds(StripIds(wikidata)))
    ensures StrictlySorted(RowOrgs(Merge(districts, assignments, authorities, wikidata)))
  {
    var areas := Areas(districts, assignments);
    SortedIsDistinct(AreaOrgs(areas));
    OuterJoinOnePerOrg(areas, authorities);
    SortedIsDistinct(Keys(KreisLists(assignments)));
    SortedIsDistinct(Keys(StateCodeLists(assignments)));
    JoinListKeepsOrgs(Outer(districts, assignments, authorities), KreisLists(assignments), KreisListColumn);
    JoinListKeepsOrgs(WithKreisLists(districts, assignments, authorities), StateCodeLists(assignments), StateCodesColumn);
    JoinWikidataKeepsOrgs(WithStateCodes(districts, assignments, authorities), StripIds(wikidata));
  }
}
