/** The second half of `merge()`: the outer merge of the dissolved areas with
    the authorities table, and the three left merges that attach the district
    lists, the state codes and the Wikidata attributes. */
module Joins {
  import opened Wrappers
  import opened Strings
  import opened Records
  import opened Aggregate

  // ------------------------------------------------------------ outer join

  function AuthorityOrgs(authorities: seq<Authority>): (r: seq<string>)
    ensures |r| == |authorities|
    ensures forall i :: 0 <= i < |authorities| ==> r[i] == authorities[i].org
    ensures forall o :: o in r <==> exists x :: x in authorities && x.org == o
  {
    var r := seq(|authorities|, i requires 0 <= i < |authorities| => authorities[i].org);
    assert forall x :: x in authorities ==> x.org in r by {
      forall x | x in authorities
        ensures x.org in r
      {
        var i :| 0 <= i < |authorities| && authorities[i] == x;
        assert r[i] == x.org;
      }
    }
    r
  }

  function AreasOf(areas: seq<Area>, org: string): (r: seq<Area>)
    ensures forall x :: x in r <==> x in areas && x.org == org
    ensures |r| <= |areas|
  {
    if |areas| == 0 then []
    else (if areas[0].org == org then [areas[0]] else []) + AreasOf(areas[1..], org)
  }

  function AuthoritiesOf(authorities: seq<Authority>, org: string): (r: seq<Authority>)
    ensures forall x :: x in r <==> x in authorities && x.org == org
    ensures |r| <= |authorities|
  {
    if |authorities| == 0 then []
    else (if authorities[0].org == org then [authorities[0]] else []) + AuthoritiesOf(authorities[1..], org)
  }

  function Fresh(org: string, area: Option<Area>, authority: Option<Authority>): MergedRow
  {
    MergedRow(org, area, authority, None, None, None)
  }

  /** Every pairing of a left option with a right option, left-major. */
  function Cross(org: string, ls: seq<Option<Area>>, rs: seq<Option<Authority>>): (r: seq<MergedRow>)
    ensures |r| == |ls| * |rs|
    ensures forall x :: x in r <==>
      exists i, j :: 0 <= i < |ls| && 0 <= j < |rs| && x == Fresh(org, ls[i], rs[j])
  {
    if |ls| == 0 then []
    else
      var head := seq(|rs|, j requires 0 <= j < |rs| => Fresh(org, ls[0], rs[j]));
      var tail := Cross(org, ls[1..], rs);
      assert forall x :: x in head + tail <==>
        exists i, j :: 0 <= i < |ls| && 0 <= j < |rs| && x == Fresh(org, ls[i], rs[j]) by {
        forall x | x in head + tail
          ensures exists i, j :: 0 <= i < |ls| && 0 <= j < |rs| && x == Fresh(org, ls[i], rs[j])
        {
          if x in head {
            var j :| 0 <= j < |rs| && head[j] == x;
            assert x == Fresh(org, ls[0], rs[j]);
          } else {
            var i, j :| 0 <= i < |ls[1..]| && 0 <= j < |rs| && x == Fresh(org, ls[1..][i], rs[j]);
            assert x == Fresh(org, ls[i + 1], rs[j]);
          }
        }
        forall x, i, j | 0 <= i < |ls| && 0 <= j < |rs| && x == Fresh(org, ls[i], rs[j])
          ensures x in head + tail
        {
          if i == 0 {
            assert head[j] == x;
          } else {
            assert ls[1..][i - 1] == ls[i];
            assert x in tail;
          }
        }
      }
      head + tail
  }

  /** What the outer merge makes of one key: a side with no row contributes NaN. */
  predicate KeyRow(x: MergedRow, org: string, ls: seq<Area>, rs: seq<Authority>)
  {
    && x.org == org
    && x.kreisList.None? && x.stateCodes.None? && x.wikidata.None?
    && (x.area.Some? <==> |ls| > 0) && (x.area.Some? ==> x.area.value in ls)
    && (x.authority.Some? <==> |rs| > 0) && (x.authority.Some? ==> x.authority.value in rs)
  }

  function KeyRows(org: string, ls: seq<Area>, rs: seq<Authority>): (r: seq<MergedRow>)
    ensures |r| >= 1
    ensures |ls| <= 1 && |rs| <= 1 ==> |r| == 1
    ensures forall x :: x in r ==> KeyRow(x, org, ls, rs)
  {
    var lo := Options(ls);
    var ro := Options(rs);
    var r := Cross(org, lo, ro);
    assert |r| >= 1 by {
      assert |lo| >= 1 && |ro| >= 1;
      assert |lo| * |ro| >= |ro|;
    }
    forall x | x in r
      ensures KeyRow(x, org, ls, rs)
    {
      var i, j :| 0 <= i < |lo| && 0 <= j < |ro| && x == Fresh(org, lo[i], ro[j]);
      if |ls| > 0 { assert ls[i] in ls; }
      if |rs| > 0 { assert rs[j] in rs; }
    }
    r
  }

  /** Every row of either side shows up in some row of its key. */
  lemma KeyRowsCover(org: string, ls: seq<Area>, rs: seq<Authority>)
    ensures forall a :: a in ls ==> exists x :: x in KeyRows(org, ls, rs) && x.area == Some(a)
    ensures forall t :: t in rs ==> exists x :: x in KeyRows(org, ls, rs) && x.authority == Some(t)
  {
    var lo := Options(ls);
    var ro := Options(rs);
    var r := KeyRows(org, ls, rs);
    assert r == Cross(org, lo, ro);
    forall a | a in ls
      ensures exists x :: x in r && x.area == Some(a)
    {
      var i :| 0 <= i < |ls| && ls[i] == a;
      assert Fresh(org, lo[i], ro[0]) in r;
    }
    forall t | t in rs
      ensures exists x :: x in r && x.authority == Some(t)
    {
      var j :| 0 <= j < |rs| && rs[j] == t;
      assert Fresh(org, lo[0], ro[j]) in r;
    }
  }

  function OuterRows(keys: seq<string>, areas: seq<Area>, authorities: seq<Authority>): (r: seq<MergedRow>)
    ensures forall x :: x in r ==>
      x.org in keys && KeyRow(x, x.org, AreasOf(areas, x.org), AuthoritiesOf(authorities, x.org))
  {
    if |keys| == 0 then []
    else
      var k := keys[0];
      KeyRows(k, AreasOf(areas, k), AuthoritiesOf(authorities, k)) + OuterRows(keys[1..], areas, authorities)
  }

  /** Nothing is lost: every key, every area and every authority row whose
      organisation is among the keys shows up in some row. */
  lemma OuterRowsCover(keys: seq<string>, areas: seq<Area>, authorities: seq<Authority>)
    ensures forall k :: k in keys ==> k in RowOrgs(OuterRows(keys, areas, authorities))
    ensures forall a :: a in areas && a.org in keys ==>
      exists x :: x in OuterRows(keys, areas, authorities) && x.area == Some(a)
    ensures forall t :: t in authorities && t.org in keys ==>
      exists x :: x in OuterRows(keys, areas, authorities) && x.authority == Some(t)
  {
    OuterRowsCoverKeys(keys, areas, authorities);
    forall a | a in areas && a.org in keys
      ensures exists x :: x in OuterRows(keys, areas, authorities) && x.area == Some(a)
    {
      OuterRowsCoverArea(keys, areas, authorities, a);
    }
    forall t | t in authorities && t.org in keys
      ensures exists x :: x in OuterRows(keys, areas, authorities) && x.authority == Some(t)
    {
      OuterRowsCoverAuthority(keys, areas, authorities, t);
    }
  }

  lemma OuterRowsSplit(keys: seq<string>, areas: seq<Area>, authorities: seq<Authority>)
    requires |keys| > 0
    ensures OuterRows(keys, areas, authorities)
      == KeyRows(keys[0], AreasOf(areas, keys[0]), AuthoritiesOf(authorities, keys[0]))
         + OuterRows(keys[1..], areas, authorities)
  {
  }

  lemma {:induction false} OuterRowsCoverKeys(keys: seq<string>, areas: seq<Area>, authorities: seq<Authority>)
    ensures forall k :: k in keys ==> k in RowOrgs(OuterRows(keys, areas, authorities))
    decreases |keys|
  {
    if |keys| > 0 {
      var k := keys[0];
      var head := KeyRows(k, AreasOf(areas, k), AuthoritiesOf(authorities, k));
      var tail := OuterRows(keys[1..], areas, authorities);
      OuterRowsSplit(keys, areas, authorities);
      OuterRowsCoverKeys(keys[1..], areas, authorities);
      RowOrgsAppend(head, tail);
      forall kk | kk in keys
        ensures kk in RowOrgs(head + tail)
      {
        if kk == k {
          assert RowOrgs(head + tail)[0] == k;
        } else {
          assert kk in keys[1..];
        }
      }
    }
  }

  lemma {:induction false} OuterRowsCoverArea(keys: seq<string>, areas: seq<Area>, authorities: seq<Authority>, a: Area)
    requires a in areas && a.org in keys
    ensures exists x :: x in OuterRows(keys, areas, authorities) && x.area == Some(a)
    decreases |keys|
  {
    var k := keys[0];
    var head := KeyRows(k, AreasOf(areas, k), AuthoritiesOf(authorities, k));
    var tail := OuterRows(keys[1..], areas, authorities);
    OuterRowsSplit(keys, areas, authorities);
    if a.org == k {
      assert a in AreasOf(areas, k);
      KeyRowsCover(k, AreasOf(areas, k), AuthoritiesOf(authorities, k));
      var x :| x in head && x.area == Some(a);
      assert x in head + tail;
    } else {
      assert a.org in keys[1..];
      OuterRowsCoverArea(keys[1..], areas, authorities, a);
      var x :| x in tail && x.area == Some(a);
      assert x in head + tail;
    }
  }

  lemma {:induction false} OuterRowsCoverAuthority(keys: seq<string>, areas: seq<Area>, authorities: seq<Authority>, t: Authority)
    requires t in authorities && t.org in keys
    ensures exists x :: x in OuterRows(keys, areas, authorities) && x.authority == Some(t)
    decreases |keys|
  {
    var k := keys[0];
    var head := KeyRows(k, AreasOf(areas, k), AuthoritiesOf(authorities, k));
    var tail := OuterRows(keys[1..], areas, authorities);
    OuterRowsSplit(keys, areas, authorities);
    if t.org == k {
      assert t in AuthoritiesOf(authorities, k);
      KeyRowsCover(k, AreasOf(areas, k), AuthoritiesOf(authorities, k));
      var x :| x in head && x.authority == Some(t);
      assert x in head + tail;
    } else {
      assert t.org in keys[1..];
      OuterRowsCoverAuthority(keys[1..], areas, authorities, t);
      var x :| x in tail && x.authority == Some(t);
      assert x in head + tail;
    }
  }

  /** `areas.merge(authorities, how='outer', on='org')`: the keys of both sides,
      sorted; for each key every area paired with every authority row, with
      NaN standing in for a side that has none. */
  function OuterJoin(areas: seq<Area>, authorities: seq<Authority>): (r: seq<MergedRow>)
    ensures forall o :: o in RowOrgs(r) <==> o in AreaOrgs(areas) || o in AuthorityOrgs(authorities)
    ensures forall x :: x in r ==> KeyRow(x, x.org, AreasOf(areas, x.org), AuthoritiesOf(authorities, x.org))
    ensures forall a :: a in areas ==> exists x :: x in r && x.area == Some(a)
    ensures forall t :: t in authorities ==> exists x :: x in r && x.authority == Some(t)
  {
    var keys := SortedDistinct(AreaOrgs(areas) + AuthorityOrgs(authorities));
    var r := OuterRows(keys, areas, authorities);
    OuterRowsCover(keys, areas, authorities);
    forall a | a in areas
      ensures exists x :: x in r && x.area == Some(a)
    {
      assert a.org in AreaOrgs(areas);
      assert a.org in keys;
    }
    forall t | t in authorities
      ensures exists x :: x in r && x.authority == Some(t)
    {
      assert t.org in AuthorityOrgs(authorities);
      assert t.org in keys;
    }
    r
  }

  /** With unique keys on both sides, the outer merge yields exactly one row per
      organisation, in sorted order. */
  lemma OuterJoinOnePerOrg(areas: seq<Area>, authorities: seq<Authority>)
    requires Distinct(AreaOrgs(areas)) && Distinct(AuthorityOrgs(authorities))
    ensures StrictlySorted(RowOrgs(OuterJoin(areas, authorities)))
  {
    var keys := SortedDistinct(AreaOrgs(areas) + AuthorityOrgs(authorities));
    OuterRowsOnePerKey(keys, areas, authorities);
  }

  lemma {:induction false} OuterRowsOnePerKey(keys: seq<string>, areas: seq<Area>, authorities: seq<Authority>)
    requires StrictlySorted(keys)
    requires Distinct(AreaOrgs(areas)) && Distinct(AuthorityOrgs(authorities))
    ensures RowOrgs(OuterRows(keys, areas, authorities)) == keys
    decreases |keys|
  {
    if |keys| > 0 {
      OuterRowsUnfold(keys, areas, authorities);
      KeyRowsForUniqueKeys(keys[0], areas, authorities);
      SortedTail(keys);
      OuterRowsOnePerKey(keys[1..], areas, authorities);
      assert keys == [keys[0]] + keys[1..];
    }
  }

  lemma OuterRowsUnfold(keys: seq<string>, areas: seq<Area>, authorities: seq<Authority>)
    requires |keys| > 0
    ensures RowOrgs(OuterRows(keys, areas, authorities))
      == RowOrgs(KeyRows(keys[0], AreasOf(areas, keys[0]), AuthoritiesOf(authorities, keys[0])))
         + RowOrgs(OuterRows(keys[1..], areas, authorities))
  {
    RowOrgsAppend(KeyRows(keys[0], AreasOf(areas, keys[0]), AuthoritiesOf(authorities, keys[0])),
                  OuterRows(keys[1..], areas, authorities));
  }

  lemma KeyRowsForUniqueKeys(k: string, areas: seq<Area>, authorities: seq<Authority>)
    requires Distinct(AreaOrgs(areas)) && Distinct(AuthorityOrgs(authorities))
    ensures RowOrgs(KeyRows(k, AreasOf(areas, k), AuthoritiesOf(authorities, k))) == [k]
  {
    AtMostOneArea(areas, k);
    AtMostOneAuthority(authorities, k);
    KeyRowsSingle(k, AreasOf(areas, k), AuthoritiesOf(authorities, k));
  }

  lemma KeyRowsSingle(org: string, ls: seq<Area>, rs: seq<Authority>)
    requires |ls| <= 1 && |rs| <= 1
    ensures RowOrgs(KeyRows(org, ls, rs)) == [org]
  {
    var r := KeyRows(org, ls, rs);
    assert |r| == 1;
    assert KeyRow(r[0], org, ls, rs) by {
      assert r[0] in r;
    }
    Singleton(RowOrgs(r), org);
  }

  lemma {:induction false} AtMostOneArea(areas: seq<Area>, org: string)
    requires Distinct(AreaOrgs(areas))
    ensures |AreasOf(areas, org)| <= 1
    decreases |areas|
  {
    if |areas| > 0 {
      var tail := areas[1..];
      assert Distinct(AreaOrgs(tail)) by {
        forall i, j | 0 <= i < j < |tail|
          ensures AreaOrgs(tail)[i] != AreaOrgs(tail)[j]
        {
          assert AreaOrgs(areas)[i + 1] == AreaOrgs(tail)[i];
          assert AreaOrgs(areas)[j + 1] == AreaOrgs(tail)[j];
        }
      }
      AtMostOneArea(tail, org);
      if areas[0].org == org {
        forall k | 0 <= k < |tail|
          ensures tail[k].org != org
        {
          assert AreaOrgs(areas)[k + 1] == tail[k].org;
        }
        HeadIsMember(AreasOf(tail, org));
      }
    }
  }

  lemma {:induction false} AtMostOneAuthority(authorities: seq<Authority>, org: string)
    requires Distinct(AuthorityOrgs(authorities))
    ensures |AuthoritiesOf(authorities, org)| <= 1
    decreases |authorities|
  {
    if |authorities| > 0 {
      var tail := authorities[1..];
      assert Distinct(AuthorityOrgs(tail)) by {
        forall i, j | 0 <= i < j < |tail|
          ensures AuthorityOrgs(tail)[i] != AuthorityOrgs(tail)[j]
        {
          assert AuthorityOrgs(authorities)[i + 1] == AuthorityOrgs(tail)[i];
          assert AuthorityOrgs(authorities)[j + 1] == AuthorityOrgs(tail)[j];
        }
      }
      AtMostOneAuthority(tail, org);
      if authorities[0].org == org {
        forall k | 0 <= k < |tail|
          ensures tail[k].org != org
        {
          assert AuthorityOrgs(authorities)[k + 1] == tail[k].org;
        }
        HeadIsMember(AuthoritiesOf(tail, org));
      }
    }
  }

  // ------------------------------------------------------------ left joins

  /** The values a grouped table holds for key `k`, in table order. */
  function Lookup(t: Table<seq<string>>, k: string): (r: seq<seq<string>>)
    ensures forall v :: v in r <==> (k, v) in t
    ensures |r| <= |t|
  {
    if |t| == 0 then []
    else (if t[0].0 == k then [t[0].1] else []) + Lookup(t[1..], k)
  }

  lemma LookupNonEmpty(t: Table<seq<string>>, k: string)
    ensures k in Keys(t) ==> |Lookup(t, k)| > 0
  {
    if k in Keys(t) {
      var i :| 0 <= i < |t| && Keys(t)[i] == k;
      assert t[i].1 in Lookup(t, k);
    }
  }

  lemma {:induction false} LookupAtMostOne(t: Table<seq<string>>, k: string)
    requires Distinct(Keys(t))
    ensures |Lookup(t, k)| <= 1
    decreases |t|
  {
    if |t| > 0 {
      var tail := t[1..];
      assert Distinct(Keys(tail)) by {
        forall i, j | 0 <= i < j < |tail|
          ensures Keys(tail)[i] != Keys(tail)[j]
        {
          assert Keys(t)[i + 1] == Keys(tail)[i];
          assert Keys(t)[j + 1] == Keys(tail)[j];
        }
      }
      LookupAtMostOne(tail, k);
      if t[0].0 == k {
        forall i | 0 <= i < |tail|
          ensures tail[i].0 != k
        {
          assert Keys(t)[i + 1] == tail[i].0;
        }
        HeadIsMember(Lookup(tail, k));
      }
    }
  }

  /** The two list columns attached by left merges on `org`. */
  datatype ListColumn = KreisListColumn | StateCodesColumn

  function Column(x: MergedRow, c: ListColumn): Option<seq<string>>
  {
    match c
    case KreisListColumn => x.kreisList
    case StateCodesColumn => x.stateCodes
  }

  /** `x` with column `c` set to `v` and every other field unchanged. */
  function SetColumn(x: MergedRow, c: ListColumn, v: Option<seq<string>>): (r: MergedRow)
    ensures Column(r, c) == v
    ensures r.org == x.org && r.area == x.area && r.authority == x.authority && r.wikidata == x.wikidata
    ensures c.KreisListColumn? ==> r.stateCodes == x.stateCodes
    ensures c.StateCodesColumn? ==> r.kreisList == x.kreisList
  {
    match c
    case KreisListColumn => x.(kreisList := v)
    case StateCodesColumn => x.(stateCodes := v)
  }

  /** `x` is the left row `y` with only column `c` filled in. */
  predicate Extends(x: MergedRow, y: MergedRow, c: ListColumn)
  {
    x == SetColumn(y, c, Column(x, c))
  }

  /** The rows one left row turns into: one per match, or one unmatched row. */
  function ExpandList(y: MergedRow, c: ListColumn, t: Table<seq<string>>): (r: seq<MergedRow>)
    ensures |r| >= 1
    ensures |Lookup(t, y.org)| <= 1 ==> |r| == 1
    ensures forall x :: x in r ==> Extends(x, y, c)
    ensures forall x :: x in r && Column(x, c).Some? ==> (y.org, Column(x, c).value) in t
    ensures forall x :: x in r && Column(x, c).None? ==> y.org !in Keys(t)
    ensures var m := Lookup(t, y.org);
      |m| > 0 ==> |r| == |m| && forall i :: 0 <= i < |r| ==> r[i] == SetColumn(y, c, Some(m[i]))
  {
    var opts := Options(Lookup(t, y.org));
    var r := seq(|opts|, i requires 0 <= i < |opts| => SetColumn(y, c, opts[i]));
    LookupNonEmpty(t, y.org);
    r
  }

  /** `rows.merge(table, on='org', how='left')` for one of the list columns:
      left rows in order, each repeated once per matching table entry, or kept
      once with the column unset when the table has no entry for its `org`. */
  function JoinList(rows: seq<MergedRow>, t: Table<seq<string>>, c: ListColumn): (r: seq<MergedRow>)
    ensures |r| >= |rows|
    ensures forall x :: x in r ==> exists y :: y in rows && Extends(x, y, c)
    ensures forall x :: x in r && Column(x, c).Some? ==> (x.org, Column(x, c).value) in t
    ensures forall x :: x in r && Column(x, c).None? ==> x.org !in Keys(t)
  {
    if |rows| == 0 then []
    else
      var head := ExpandList(rows[0], c, t);
      var tail := JoinList(rows[1..], t, c);
      assert forall y :: y in rows[1..] ==> y in rows;
      head + tail
  }

  /** No left row is lost: each one reappears, extended by the column. */
  lemma JoinListKeepsRows(rows: seq<MergedRow>, t: Table<seq<string>>, c: ListColumn)
    ensures forall y :: y in rows ==> exists x :: x in JoinList(rows, t, c) && Extends(x, y, c)
  {
    forall y | y in rows
      ensures exists x :: x in JoinList(rows, t, c) && Extends(x, y, c)
    {
      JoinListKeepsRow(rows, t, c, y);
    }
  }

  lemma JoinListSplit(rows: seq<MergedRow>, t: Table<seq<string>>, c: ListColumn)
    requires |rows| > 0
    ensures JoinList(rows, t, c) == ExpandList(rows[0], c, t) + JoinList(rows[1..], t, c)
  {
  }

  lemma {:induction false} JoinListKeepsRow(rows: seq<MergedRow>, t: Table<seq<string>>, c: ListColumn, y: MergedRow)
    requires y in rows
    ensures exists x :: x in JoinList(rows, t, c) && Extends(x, y, c)
    decreases |rows|
  {
    var head := ExpandList(rows[0], c, t);
    var tail := JoinList(rows[1..], t, c);
    JoinListSplit(rows, t, c);
    if y == rows[0] {
      assert Extends(head[0], y, c) && head[0] in head + tail;
    } else {
      assert y in rows[1..];
      JoinListKeepsRow(rows[1..], t, c, y);
      var x :| x in tail && Extends(x, y, c);
      assert x in head + tail;
    }
  }

  /** No match is lost: a left row paired with any table entry for its
      organisation appears in the merged rows. */
  lemma {:induction false} JoinListHasMatch(rows: seq<MergedRow>, t: Table<seq<string>>, c: ListColumn,
                                            y: MergedRow, v: seq<string>)
    requires y in rows && (y.org, v) in t
    ensures SetColumn(y, c, Some(v)) in JoinList(rows, t, c)
    decreases |rows|
  {
    var head := ExpandList(rows[0], c, t);
    var tail := JoinList(rows[1..], t, c);
    JoinListSplit(rows, t, c);
    if y == rows[0] {
      var m := Lookup(t, y.org);
      var i :| 0 <= i < |m| && m[i] == v;
      assert head[i] in head + tail;
    } else {
      assert y in rows[1..];
      JoinListHasMatch(rows[1..], t, c, y, v);
      assert SetColumn(y, c, Some(v)) in head + tail;
    }
  }

  /** Splitting a row-for-row result into its first block and the rest. */
  lemma ConsPointwise(rows: seq<MergedRow>, head: seq<MergedRow>, tail: seq<MergedRow>)
    requires |rows| > 0 && |head| == 1 && |tail| == |rows| - 1
    ensures |head + tail| == |rows|
    ensures (head + tail)[0] == head[0]
    ensures forall i :: 1 <= i < |rows| ==> (head + tail)[i] == tail[i - 1] && rows[i] == rows[1..][i - 1]
  {
  }

  lemma ExpandListSingle(y: MergedRow, c: ListColumn, t: Table<seq<string>>)
    requires Distinct(Keys(t))
    ensures |ExpandList(y, c, t)| == 1 && Extends(ExpandList(y, c, t)[0], y, c)
  {
    LookupAtMostOne(t, y.org);
    assert ExpandList(y, c, t)[0] in ExpandList(y, c, t);
  }

  /** With unique table keys, as a `groupby` result has, the left merge is
      row-for-row: same count, same order, only the column filled in. */
  lemma {:induction false} JoinListUniqueKeys(rows: seq<MergedRow>, t: Table<seq<string>>, c: ListColumn)
    requires Distinct(Keys(t))
    ensures |JoinList(rows, t, c)| == |rows|
    ensures forall i :: 0 <= i < |rows| ==>
      Extends(JoinList(rows, t, c)[i], rows[i], c)
    decreases |rows|
  {
    if |rows| > 0 {
      var head := ExpandList(rows[0], c, t);
      var tail := JoinList(rows[1..], t, c);
      ExpandListSingle(rows[0], c, t);
      JoinListUniqueKeys(rows[1..], t, c);
      ConsPointwise(rows, head, tail);
    }
  }

  // --------------------------------------------------------- Wikidata join

  /** The left key of the Wikidata merge: the authority's `wikidata` column. */
  function WikidataKey(x: MergedRow): Option<string>
  {
    if x.authority.Some? then x.authority.value.wikidata else None
  }

  function Tds(wd: seq<WikidataRow>): (r: seq<string>)
    ensures |r| == |wd|
    ensures forall i :: 0 <= i < |wd| ==> r[i] == wd[i].td
  {
    seq(|wd|, i requires 0 <= i < |wd| => wd[i].td)
  }

  /** The Wikidata rows whose `td` equals the key; a missing key matches nothing. */
  function WikidataMatches(wd: seq<WikidataRow>, key: Option<string>): (r: seq<WikidataRow>)
    ensures forall w :: w in r <==> w in wd && key == Some(w.td)
    ensures |r| <= |wd|
  {
    if |wd| == 0 || key.None? then []
    else (if wd[0].td == key.value then [wd[0]] else []) + WikidataMatches(wd[1..], key)
  }

  lemma {:induction false} WikidataMatchesAtMostOne(wd: seq<WikidataRow>, key: Option<string>)
    requires Distinct(Tds(wd))
    ensures |WikidataMatches(wd, key)| <= 1
    decreases |wd|
  {
    if |wd| > 0 && key.Some? {
      var tail := wd[1..];
      assert Distinct(Tds(tail)) by {
        forall i, j | 0 <= i < j < |tail|
          ensures Tds(tail)[i] != Tds(tail)[j]
        {
          assert Tds(wd)[i + 1] == Tds(tail)[i];
          assert Tds(wd)[j + 1] == Tds(tail)[j];
        }
      }
      WikidataMatchesAtMostOne(tail, key);
      if wd[0].td == key.value {
        forall i | 0 <= i < |tail|
          ensures tail[i].td != key.value
        {
          assert Tds(wd)[i + 1] == tail[i].td;
        }
        HeadIsMember(WikidataMatches(tail, key));
      }
    }
  }

  /** `x` is the left row `y` with only the Wikidata attributes filled in. */
  predicate Enriches(x: MergedRow, y: MergedRow)
  {
    x == y.(wikidata := x.wikidata)
  }

  function ExpandWikidata(y: MergedRow, wd: seq<WikidataRow>): (r: seq<MergedRow>)
    ensures |r| >= 1
    ensures |WikidataMatches(wd, WikidataKey(y))| <= 1 ==> |r| == 1
    ensures forall x :: x in r ==> Enriches(x, y)
    ensures forall x :: x in r && x.wikidata.Some? ==>
      x.wikidata.value in wd && WikidataKey(y) == Some(x.wikidata.value.td)
    ensures forall x :: x in r && x.wikidata.None? ==>
      forall w :: w in wd ==> WikidataKey(y) != Some(w.td)
    ensures var m := WikidataMatches(wd, WikidataKey(y));
      |m| > 0 ==> |r| == |m| && forall i :: 0 <= i < |r| ==> r[i] == y.(wikidata := Some(m[i]))
  {
    var opts := Options(WikidataMatches(wd, WikidataKey(y)));
    seq(|opts|, i requires 0 <= i < |opts| => y.(wikidata := opts[i]))
  }

  /** `rows.merge(wikidata, how='left', left_on='wikidata', right_on='td')`. */
  function JoinWikidata(rows: seq<MergedRow>, wd: seq<WikidataRow>): (r: seq<MergedRow>)
    ensures |r| >= |rows|
    ensures forall x :: x in r ==> exists y :: y in rows && Enriches(x, y)
    ensures forall x :: x in r && x.wikidata.Some? ==>
      x.wikidata.value in wd && WikidataKey(x) == Some(x.wikidata.value.td)
    ensures forall x :: x in r && x.wikidata.None? ==>
      forall w :: w in wd ==> WikidataKey(x) != Some(w.td)
  {
    if |rows| == 0 then []
    else
      var head := ExpandWikidata(rows[0], wd);
      var tail := JoinWikidata(rows[1..], wd);
      assert forall y :: y in rows[1..] ==> y in rows;
      head + tail
  }

  /** No row is lost in the Wikidata merge: each one reappears, enriched. */
  lemma JoinWikidataKeepsRows(rows: seq<MergedRow>, wd: seq<WikidataRow>)
    ensures forall y :: y in rows ==> exists x :: x in JoinWikidata(rows, wd) && Enriches(x, y)
  {
    forall y | y in rows
      ensures exists x :: x in JoinWikidata(rows, wd) && Enriches(x, y)
    {
      JoinWikidataKeepsRow(rows, wd, y);
    }
  }

  lemma JoinWikidataSplit(rows: seq<MergedRow>, wd: seq<WikidataRow>)
    requires |rows| > 0
    ensures JoinWikidata(rows, wd) == ExpandWikidata(rows[0], wd) + JoinWikidata(rows[1..], wd)
  {
  }

  lemma {:induction false} JoinWikidataKeepsRow(rows: seq<MergedRow>, wd: seq<WikidataRow>, y: MergedRow)
    requires y in rows
    ensures exists x :: x in JoinWikidata(rows, wd) && Enriches(x, y)
    decreases |rows|
  {
    var head := ExpandWikidata(rows[0], wd);
    var tail := JoinWikidata(rows[1..], wd);
    JoinWikidataSplit(rows, wd);
    if y == rows[0] {
      assert Enriches(head[0], y) && head[0] in head + tail;
    } else {
      assert y in rows[1..];
      JoinWikidataKeepsRow(rows[1..], wd, y);
      var x :| x in tail && Enriches(x, y);
      assert x in head + tail;
    }
  }

  /** No match is lost: a row paired with any entity whose `td` equals its
      key appears in the merged rows, so a repeated `td` repeats the row. */
  lemma {:induction false} JoinWikidataHasMatch(rows: seq<MergedRow>, wd: seq<WikidataRow>,
                                                y: MergedRow, w: WikidataRow)
    requires y in rows && w in wd && WikidataKey(y) == Some(w.td)
    ensures y.(wikidata := Some(w)) in JoinWikidata(rows, wd)
    decreases |rows|
  {
    var head := ExpandWikidata(rows[0], wd);
    var tail := JoinWikidata(rows[1..], wd);
    JoinWikidataSplit(rows, wd);
    if y == rows[0] {
      var m := WikidataMatches(wd, WikidataKey(y));
      var i :| 0 <= i < |m| && m[i] == w;
      assert head[i] in head + tail;
    } else {
      assert y in rows[1..];
      JoinWikidataHasMatch(rows[1..], wd, y, w);
      assert y.(wikidata := Some(w)) in head + tail;
    }
  }

  lemma ExpandWikidataSingle(y: MergedRow, wd: seq<WikidataRow>)
    requires Distinct(Tds(wd))
    ensures |ExpandWikidata(y, wd)| == 1 && Enriches(ExpandWikidata(y, wd)[0], y)
  {
    WikidataMatchesAtMostOne(wd, WikidataKey(y));
    assert ExpandWikidata(y, wd)[0] in ExpandWikidata(y, wd);
  }

  /** With unique `td` values the Wikidata merge is row-for-row. */
  lemma {:induction false} JoinWikidataUniqueIds(rows: seq<MergedRow>, wd: seq<WikidataRow>)
    requires Distinct(Tds(wd))
    ensures |JoinWikidata(rows, wd)| == |rows|
    ensures forall i :: 0 <= i < |rows| ==>
      Enriches(JoinWikidata(rows, wd)[i], rows[i])
    decreases |rows|
  {
    if |rows| > 0 {
      var head := ExpandWikidata(rows[0], wd);
      var tail := JoinWikidata(rows[1..], wd);
      ExpandWikidataSingle(rows[0], wd);
      JoinWikidataUniqueIds(rows[1..], wd);
      ConsPointwise(rows, head, tail);
    }
  }
}
