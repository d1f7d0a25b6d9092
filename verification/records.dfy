/** The tables the merge pipeline reads and the rows it produces. District and
    organisation codes are strings throughout, so leading zeros are never lost. */
module Records {
  import opened Wrappers

  /** A district shape. The pipeline never looks inside a geometry; it only
      unions them, so a union is kept as an uninterpreted term over its parts. */
  datatype Geom = Shape(data: string) | Union(parts: seq<Geom>)

  /** One feature of the VG250 district layer: regional key, geofactor, shape. */
  datatype District = District(ars: string, gf: int, geom: Geom)

  /** One row of the assignments table: district key `kreis` belongs to `org`. */
  datatype Assignment = Assignment(kreis: string, org: string)

  /** One row of the authorities table; `curated` holds the remaining columns. */
  datatype Authority = Authority(org: string, wikidata: Option<string>, curated: map<string, string>)

  /** One result row of the Wikidata query for transit districts in Germany. */
  datatype WikidataRow = WikidataRow(
    td: string,
    tdLabel: Option<string>,
    website: Option<string>,
    shortName: Option<string>,
    twitter: Option<string>,
    linkedIn: Option<string>)

  /** A district joined with one of its assignments, cut down to three columns. */
  datatype JoinedRow = JoinedRow(kreis: string, org: string, geom: Geom)

  /** One dissolved row: the union of an organisation's shapes, plus the `kreis`
      column, which dissolve aggregates by taking the group's first value. */
  datatype Area = Area(org: string, geom: Geom, kreis: string)

  /** One row of the final table. Each optional part is absent (NaN in the
      source) when the corresponding join found no partner. */
  datatype MergedRow = MergedRow(
    org: string,
    area: Option<Area>,
    authority: Option<Authority>,
    kreisList: Option<seq<string>>,
    stateCodes: Option<seq<string>>,
    wikidata: Option<WikidataRow>)

  /** A grouped table: one value per key, as produced by `groupby(...).agg(...)`. */
  type Table<V> = seq<(string, V)>

  function Keys<V>(t: Table<V>): (r: seq<string>)
    ensures |r| == |t|
    ensures forall i :: 0 <= i < |t| ==> r[i] == t[i].0
  {
    seq(|t|, i requires 0 <= i < |t| => t[i].0)
  }

  function RowOrgs(rows: seq<MergedRow>): (r: seq<string>)
    ensures |r| == |rows|
    ensures forall i :: 0 <= i < |rows| ==> r[i] == rows[i].org
    ensures forall o :: o in r <==> exists x :: x in rows && x.org == o
  {
    var r := seq(|rows|, i requires 0 <= i < |rows| => rows[i].org);
    assert forall x :: x in rows ==> x.org in r by {
      forall x | x in rows
        ensures x.org in r
      {
        var i :| 0 <= i < |rows| && rows[i] == x;
        assert r[i] == x.org;
      }
    }
    r
  }

  lemma RowOrgsAppend(a: seq<MergedRow>, b: seq<MergedRow>)
    ensures RowOrgs(a + b) == RowOrgs(a) + RowOrgs(b)
  {
  }
}
