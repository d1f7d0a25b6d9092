/** The first half of `merge()`: select the land districts, join them with the
    assignments, dissolve by organisation, and group the assignments into the
    per-organisation district and state-code lists. */
module Aggregate {
  import opened Strings
  import opened Records

  /** VG250 geofactor 4: "land with structure", the land part of a district. */
  const LandWithStructure: int := 4

  // ---------------------------------------------------------------- filter

  /** `all_districts[all_districts.gf == 4]`. */
  function FilterLand(ds: seq<District>): (r: seq<District>)
    ensures forall d :: d in r <==> d in ds && d.gf == LandWithStructure
    ensures |r| <= |ds|
  {
    if |ds| == 0 then []
    else (if ds[0].gf == LandWithStructure then [ds[0]] else []) + FilterLand(ds[1..])
  }

  /** The filter commutes with concatenation: it keeps the surviving rows in
      their original order and never reorders across the two parts. */
  lemma {:induction false} FilterLandAppend(a: seq<District>, b: seq<District>)
    ensures FilterLand(a + b) == FilterLand(a) + FilterLand(b)
    decreases |a|
  {
    if |a| == 0 {
      assert a + b == b;
    } else {
      assert (a + b)[1..] == a[1..] + b;
      FilterLandAppend(a[1..], b);
    }
  }

  lemma {:induction false} FilterLandKeepsAllLand(ds: seq<District>)
    requires forall i :: 0 <= i < |ds| ==> ds[i].gf == LandWithStructure
    ensures FilterLand(ds) == ds
    decreases |ds|
  {
    if |ds| > 0 {
      FilterLandKeepsAllLand(ds[1..]);
      assert ds == [ds[0]] + ds[1..];
    }
  }

  // ------------------------------------------------------------ inner join

  predicate JoinsWith(j: JoinedRow, d: District, a: Assignment)
  {
    d.ars == a.kreis && j == JoinedRow(a.kreis, a.org, d.geom)
  }

  /** The rows one district contributes: one per assignment with its key, in table order. */
  function MatchDistrict(d: District, assignments: seq<Assignment>): (r: seq<JoinedRow>)
    ensures forall j :: j in r <==> exists a :: a in assignments && JoinsWith(j, d, a)
    ensures |r| <= |assignments|
  {
    if |assignments| == 0 then []
    else
      var a := assignments[0];
      var head := if d.ars == a.kreis then [JoinedRow(a.kreis, a.org, d.geom)] else [];
      var rest := MatchDistrict(d, assignments[1..]);
      assert forall j :: j in head + rest <==> exists b :: b in assignments && JoinsWith(j, d, b) by {
        forall j | j in head + rest
          ensures exists b :: b in assignments && JoinsWith(j, d, b)
        {
          if j in head {
            assert JoinsWith(j, d, a);
          } else {
            var b :| b in assignments[1..] && JoinsWith(j, d, b);
            assert b in assignments;
          }
        }
        forall j, b | b in assignments && JoinsWith(j, d, b)
          ensures j in head + rest
        {
          if b != a {
            assert b in assignments[1..];
          }
        }
      }
      head + rest
  }

  /** `districts.merge(assignments, left_on='ars', right_on='kreis')` (an inner
      join, left rows in order) followed by `.filter(items=['kreis','org','geometry'])`. */
  function JoinAssignments(districts: seq<District>, assignments: seq<Assignment>): (r: seq<JoinedRow>)
    ensures forall j :: j in r <==>
      exists d, a :: d in districts && a in assignments && JoinsWith(j, d, a)
  {
    if |districts| == 0 then []
    else
      var head := MatchDistrict(districts[0], assignments);
      var tail := JoinAssignments(districts[1..], assignments);
      assert forall d :: d in districts <==> d == districts[0] || d in districts[1..];
      head + tail
  }

  /** An assignment whose district key names no district yields no joined row. */
  lemma UnmatchedAssignmentDropped(districts: seq<District>, assignments: seq<Assignment>, a: Assignment)
    requires a in assignments
    requires forall d :: d in districts ==> d.ars != a.kreis
    ensures forall j :: j in JoinAssignments(districts, assignments) ==> j.kreis != a.kreis
  {
  }

  /** Every assignment that names a district does yield a row, with that district's shape. */
  lemma MatchedAssignmentKept(districts: seq<District>, assignments: seq<Assignment>, a: Assignment, d: District)
    requires a in assignments && d in districts && d.ars == a.kreis
    ensures JoinedRow(a.kreis, a.org, d.geom) in JoinAssignments(districts, assignments)
  {
  }

  // -------------------------------------------------------------- dissolve

  function JoinedOrgs(rows: seq<JoinedRow>): (r: seq<string>)
    ensures |r| == |rows|
    ensures forall i :: 0 <= i < |rows| ==> r[i] == rows[i].org
  {
    seq(|rows|, i requires 0 <= i < |rows| => rows[i].org)
  }

  /** The joined rows of one organisation, in order. */
  function GroupOf(rows: seq<JoinedRow>, org: string): (r: seq<JoinedRow>)
    ensures forall j :: j in r <==> j in rows && j.org == org
    ensures |r| <= |rows|
  {
    if |rows| == 0 then []
    else (if rows[0].org == org then [rows[0]] else []) + GroupOf(rows[1..], org)
  }

  function Geoms(rows: seq<JoinedRow>): (r: seq<Geom>)
    ensures |r| == |rows|
    ensures forall i :: 0 <= i < |rows| ==> r[i] == rows[i].geom
  {
    seq(|rows|, i requires 0 <= i < |rows| => rows[i].geom)
  }

  function AreaOrgs(areas: seq<Area>): (r: seq<string>)
    ensures |r| == |areas|
    ensures forall i :: 0 <= i < |areas| ==> r[i] == areas[i].org
    ensures forall o :: o in r <==> exists x :: x in areas && x.org == o
  {
    var r := seq(|areas|, i requires 0 <= i < |areas| => areas[i].org);
    assert forall x :: x in areas ==> x.org in r by {
      forall x | x in areas
        ensures x.org in r
      {
        var i :| 0 <= i < |areas| && areas[i] == x;
        assert r[i] == x.org;
      }
    }
    r
  }

  /** What dissolve makes of one non-empty group: the union of its shapes and its first `kreis`. */
  predicate DissolvedFrom(x: Area, rows: seq<JoinedRow>)
  {
    var g := GroupOf(rows, x.org);
    |g| > 0 && x.geom == Union(Geoms(g)) && x.kreis == g[0].kreis
  }

  function DissolveKeys(rows: seq<JoinedRow>, keys: seq<string>): (r: seq<Area>)
    requires forall k :: k in keys ==> k in JoinedOrgs(rows)
    ensures AreaOrgs(r) == keys
    ensures forall x :: x in r ==> DissolvedFrom(x, rows)
  {
    if |keys| == 0 then []
    else
      GroupOfNonEmpty(rows, keys[0]);
      var g := GroupOf(rows, keys[0]);
      var x := Area(keys[0], Union(Geoms(g)), g[0].kreis);
      assert forall k :: k in keys[1..] ==> k in keys;
      var tail := DissolveKeys(rows, keys[1..]);
      AreaOrgsCons(x, tail);
      ConsSplit(keys);
      assert DissolvedFrom(x, rows);
      [x] + tail
  }

  lemma GroupOfNonEmpty(rows: seq<JoinedRow>, org: string)
    requires org in JoinedOrgs(rows)
    ensures |GroupOf(rows, org)| > 0
  {
    var i :| 0 <= i < |rows| && JoinedOrgs(rows)[i] == org;
    assert rows[i] in GroupOf(rows, org);
  }

  lemma AreaOrgsCons(x: Area, tail: seq<Area>)
    ensures AreaOrgs([x] + tail) == [x.org] + AreaOrgs(tail)
  {
    var l := [x] + tail;
    forall i | 1 <= i < |l|
      ensures AreaOrgs(l)[i] == AreaOrgs(tail)[i - 1]
    {
      assert l[i] == tail[i - 1];
    }
  }

  /** `dissolve(by='org')`: one row per organisation, ordered by organisation,
      holding the union of that organisation's joined shapes. */
  function Dissolve(rows: seq<JoinedRow>): (r: seq<Area>)
    ensures StrictlySorted(AreaOrgs(r))
    ensures forall o :: o in AreaOrgs(r) <==> exists j :: j in rows && j.org == o
    ensures forall x :: x in r ==> DissolvedFrom(x, rows)
  {
    var keys := SortedDistinct(JoinedOrgs(rows));
    assert forall o :: o in JoinedOrgs(rows) <==> exists j :: j in rows && j.org == o;
    DissolveKeys(rows, keys)
  }

  /** Exactly one dissolved row per organisation of the joined table. */
  lemma DissolveOnePerOrg(rows: seq<JoinedRow>, o: string)
    requires exists j :: j in rows && j.org == o
    ensures exists i :: 0 <= i < |Dissolve(rows)| && Dissolve(rows)[i].org == o
    ensures forall i, k ::
      (0 <= i < |Dissolve(rows)| && 0 <= k < |Dissolve(rows)|
       && Dissolve(rows)[i].org == o && Dissolve(rows)[k].org == o) ==> i == k
  {
    var r := Dissolve(rows);
    assert o in AreaOrgs(r);
    SortedIsDistinct(AreaOrgs(r));
  }

  // -------------------------------------------------- per-organisation lists

  function AssignmentOrgs(assignments: seq<Assignment>): (r: seq<string>)
    ensures |r| == |assignments|
    ensures forall i :: 0 <= i < |assignments| ==> r[i] == assignments[i].org
  {
    seq(|assignments|, i requires 0 <= i < |assignments| => assignments[i].org)
  }

  /** The `kreis` values assigned to `org`, in table order, duplicates kept. */
  function KreisOf(assignments: seq<Assignment>, org: string): (r: seq<string>)
    ensures forall k :: k in r <==> Assignment(k, org) in assignments
    ensures |r| <= |assignments|
  {
    if |assignments| == 0 then []
    else
      (if assignments[0].org == org then [assignments[0].kreis] else [])
        + KreisOf(assignments[1..], org)
  }

  /** Grouping respects table order: the list for a table split in two is the
      list for the first part followed by the list for the second. */
  lemma {:induction false} KreisOfAppend(a: seq<Assignment>, b: seq<Assignment>, org: string)
    ensures KreisOf(a + b, org) == KreisOf(a, org) + KreisOf(b, org)
    decreases |a|
  {
    if |a| == 0 {
      assert a + b == b;
    } else {
      assert (a + b)[1..] == a[1..] + b;
      KreisOfAppend(a[1..], b, org);
    }
  }

  /** The list holds one entry per assignment of `org`: duplicates are kept. */
  lemma {:induction false} KreisOfCount(assignments: seq<Assignment>, org: string)
    ensures |KreisOf(assignments, org)| == |GroupAssignments(assignments, org)|
    decreases |assignments|
  {
    if |assignments| > 0 {
      KreisOfCount(assignments[1..], org);
    }
  }

  /** The assignment rows of `org`, in table order. */
  function GroupAssignments(assignments: seq<Assignment>, org: string): (r: seq<Assignment>)
    ensures forall x :: x in r <==> x in assignments && x.org == org
  {
    if |assignments| == 0 then []
    else
      (if assignments[0].org == org then [assignments[0]] else [])
        + GroupAssignments(assignments[1..], org)
  }

  function KreisListsFor(assignments: seq<Assignment>, keys: seq<string>): (r: Table<seq<string>>)
    ensures Keys(r) == keys
    ensures forall i :: 0 <= i < |r| ==> r[i].1 == KreisOf(assignments, keys[i])
  {
    if |keys| == 0 then []
    else [(keys[0], KreisOf(assignments, keys[0]))] + KreisListsFor(assignments, keys[1..])
  }

  /** `assignments.groupby('org')['kreis'].agg(list)`: one entry per
      organisation, ordered by organisation, each listing that organisation's
      district keys in table order. */
  function KreisLists(assignments: seq<Assignment>): (r: Table<seq<string>>)
    ensures StrictlySorted(Keys(r))
    ensures forall o :: o in Keys(r) <==> o in AssignmentOrgs(assignments)
    ensures forall i :: 0 <= i < |r| ==> r[i].1 == KreisOf(assignments, r[i].0) && |r[i].1| > 0
  {
    var keys := SortedDistinct(AssignmentOrgs(assignments));
    var r := KreisListsFor(assignments, keys);
    forall i | 0 <= i < |r|
      ensures |r[i].1| > 0
    {
      assert r[i].0 == keys[i];
      KreisOfNonEmpty(assignments, keys[i]);
    }
    r
  }

  lemma KreisOfNonEmpty(assignments: seq<Assignment>, org: string)
    requires org in AssignmentOrgs(assignments)
    ensures |KreisOf(assignments, org)| > 0
  {
    var k :| 0 <= k < |assignments| && AssignmentOrgs(assignments)[k] == org;
    assert Assignment(assignments[k].kreis, org) == assignments[k];
    assert assignments[k].kreis in KreisOf(assignments, org);
  }

  lemma StateCodesNonEmpty(assignments: seq<Assignment>, org: string)
    requires org in AssignmentOrgs(assignments)
    ensures |StateCodesOf(assignments, org)| > 0
  {
    var k :| 0 <= k < |assignments| && AssignmentOrgs(assignments)[k] == org;
    assert assignments[k] in assignments;
    assert StateCode(assignments[k].kreis) in StateCodesOf(assignments, org);
  }

  /** The distinct state codes of an organisation's districts, sorted. */
  function StateCodesOf(assignments: seq<Assignment>, org: string): (r: seq<string>)
    ensures StrictlySorted(r)
    ensures forall c :: c in r <==>
      exists a :: a in assignments && a.org == org && StateCode(a.kreis) == c
  {
    var ks := KreisOf(assignments, org);
    var codes := seq(|ks|, i requires 0 <= i < |ks| => StateCode(ks[i]));
    assert forall c :: c in codes <==> exists k :: k in ks && StateCode(k) == c by {
      forall c | c in codes
        ensures exists k :: k in ks && StateCode(k) == c
      {
        var i :| 0 <= i < |codes| && codes[i] == c;
        assert ks[i] in ks;
      }
      forall k | k in ks
        ensures StateCode(k) in codes
      {
        var i :| 0 <= i < |ks| && ks[i] == k;
        assert codes[i] == StateCode(k);
      }
    }
    SortedDistinct(codes)
  }

  function StateCodeListsFor(assignments: seq<Assignment>, keys: seq<string>): (r: Table<seq<string>>)
    ensures Keys(r) == keys
    ensures forall i :: 0 <= i < |r| ==> r[i].1 == StateCodesOf(assignments, keys[i])
  {
    if |keys| == 0 then []
    else [(keys[0], StateCodesOf(assignments, keys[0]))] + StateCodeListsFor(assignments, keys[1..])
  }

  /** `assignments.assign(state=kreis.str[:2]).groupby('org')['state'].agg(lambda s: sorted(set(s)))`. */
  function StateCodeLists(assignments: seq<Assignment>): (r: Table<seq<string>>)
    ensures StrictlySorted(Keys(r))
    ensures forall o :: o in Keys(r) <==> o in AssignmentOrgs(assignments)
    ensures forall i :: 0 <= i < |r| ==> r[i].1 == StateCodesOf(assignments, r[i].0) && |r[i].1| > 0
  {
    var keys := SortedDistinct(AssignmentOrgs(assignments));
    var r := StateCodeListsFor(assignments, keys);
    forall i | 0 <= i < |r|
      ensures |r[i].1| > 0
    {
      assert r[i].0 == keys[i];
      StateCodesNonEmpty(assignments, keys[i]);
    }
    r
  }

  // -------------------------------------------------------------- examples

  /** Districts "01001", "01002", "05111" of one organisation: the district
      list keeps them as given, leading zeros included; the state codes are "01", "05". */
  lemma ThreeDistrictsKreisList()
    ensures KreisOf([Assignment("01001", "X"), Assignment("01002", "X"), Assignment("05111", "X")], "X")
      == ["01001", "01002", "05111"]
  {
  }

  lemma ThreeDistrictsStateCodes()
    ensures StateCodesOf([Assignment("01001", "X"), Assignment("01002", "X"), Assignment("05111", "X")], "X")
      == ["01", "05"]
  {
    var t := [Assignment("01001", "X"), Assignment("01002", "X"), Assignment("05111", "X")];
    ThreeDistrictsKreisList();
    var ks := KreisOf(t, "X");
    var codes := seq(|ks|, i requires 0 <= i < |ks| => StateCode(ks[i]));
    assert StateCode("01001") == "01" && StateCode("01002") == "01" && StateCode("05111") == "05";
    assert codes == ["01", "01", "05"] by {
      assert |codes| == 3 && codes[0] == StateCode(ks[0]) && codes[1] == StateCode(ks[1]) && codes[2] == StateCode(ks[2]);
    }
    SortedDistinctOfThreeCodes();
  }

  lemma SortedDistinctOfThreeCodes()
    ensures SortedDistinct(["01", "01", "05"]) == ["01", "05"]
  {
    assert Less("01", "05");
    assert SortedDistinct(["05"]) == ["05"];
    assert SortedDistinct(["01", "05"]) == ["01", "05"] by {
      assert ["01", "05"][1..] == ["05"];
    }
    assert ["01", "01", "05"][1..] == ["01", "05"];
  }

  /** A zero-padded key such as "03159" passes through the grouping unchanged. */
  lemma LeadingZeroKept()
    ensures KreisLists([Assignment("03159", "VSN")]) == [("VSN", ["03159"])]
  {
    var t := [Assignment("03159", "VSN")];
    assert AssignmentOrgs(t) == ["VSN"];
    var keys := SortedDistinct(AssignmentOrgs(t));
    LessIrreflexive("VSN");
    StrictlySortedUnique(keys, ["VSN"]);
    assert KreisOf(t, "VSN") == ["03159"] by {
      assert t[1..] == [];
    }
    var r := KreisListsFor(t, ["VSN"]);
    assert r == [("VSN", ["03159"])] by {
      assert KreisListsFor(t, ["VSN"][1..]) == [];
    }
  }
}
