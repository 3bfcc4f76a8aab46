/**
 Category assignment (update_nano_metadata of app/modules/nanos/service.py) and the category of a search
 document (_build_search_documents of app/modules/search/service.py).
 */
module Categories {
  import opened Options
  import opened Sorting
  import opened Catalog

  // ---- deduplication ---------------------------------------------------------------------------------

  /** The list without repeats, each value at its first position. */
  function Deduplicated(ids: seq<CategoryId>): seq<CategoryId> {
    if ids == [] then []
    else
      var n := |ids| - 1;
      var before := Deduplicated(ids[..n]);
      if ids[n] in ids[..n] then before else before + [ids[n]]
  }

  ghost predicate Distinct(ids: seq<CategoryId>) {
    forall i, j | 0 <= i < j < |ids| :: ids[i] != ids[j]
  }

  function FirstPosition(ids: seq<CategoryId>, id: CategoryId): nat {
    if ids == [] || ids[0] == id then 0 else 1 + FirstPosition(ids[1..], id)
  }

  lemma {:induction false} DeduplicatedFacts(ids: seq<CategoryId>)
    ensures forall id :: id in Deduplicated(ids) <==> id in ids
    ensures Distinct(Deduplicated(ids)) && |Deduplicated(ids)| <= |ids|
    ensures ids != [] ==> Deduplicated(ids) != [] && Deduplicated(ids)[0] == ids[0]
  {
    if ids != [] {
      var n := |ids| - 1;
      DeduplicatedFacts(ids[..n]);
      assert ids == ids[..n] + [ids[n]];
    }
  }

  lemma {:induction false} FirstPositionConcat(a: seq<CategoryId>, b: seq<CategoryId>, id: CategoryId)
    ensures id in a ==> FirstPosition(a + b, id) == FirstPosition(a, id) < |a|
    ensures id !in a ==> FirstPosition(a + b, id) == |a| + FirstPosition(b, id)
  {
    if a == [] {
      assert a + b == b;
    } else {
      assert (a + b)[1..] == a[1..] + b;
      FirstPositionConcat(a[1..], b, id);
    }
  }

  /** Deduplication keeps the order of first occurrences. */
  lemma {:induction false} DeduplicatedOrder(ids: seq<CategoryId>, i: nat, j: nat)
    requires i < j < |Deduplicated(ids)|
    ensures FirstPosition(ids, Deduplicated(ids)[i]) < FirstPosition(ids, Deduplicated(ids)[j])
  {
    var n := |ids| - 1;
    var before, last := Deduplicated(ids[..n]), ids[n];
    assert ids == ids[..n] + [last];
    DeduplicatedFacts(ids[..n]);
    var x, y := Deduplicated(ids)[i], Deduplicated(ids)[j];
    assert x in before;
    FirstPositionConcat(ids[..n], [last], x);
    FirstPositionConcat(ids[..n], [last], y);
    if j < |before| {
      assert y in before;
      DeduplicatedOrder(ids[..n], i, j);
    }
  }

  method Deduplicate(ids: seq<CategoryId>) returns (unique: seq<CategoryId>)
    ensures unique == Deduplicated(ids)
  {
    var seen: set<CategoryId> := {};
    unique := [];
    for i := 0 to |ids|
      invariant seen == set id | id in ids[..i]
      invariant unique == Deduplicated(ids[..i])
    {
      assert ids[..i + 1][..i] == ids[..i];
      assert forall id :: id in ids[..i + 1] <==> id in ids[..i] || id == ids[i];
      if ids[i] !in seen {
        seen := seen + {ids[i]};
        unique := unique + [ids[i]];
      }
    }
    assert ids[..|ids|] == ids;
  }

  // ---- the assignment table ---------------------------------------------------------------------------

  function Without(assignments: seq<Assignment>, nano: nat): seq<Assignment> {
    if assignments == [] then []
    else
      var n := |assignments| - 1;
      if assignments[n].nano == nano then Without(assignments[..n], nano)
      else Without(assignments[..n], nano) + [assignments[n]]
  }

  function Of(assignments: seq<Assignment>, nano: nat): seq<Assignment> {
    if assignments == [] then []
    else
      var n := |assignments| - 1;
      if assignments[n].nano == nano then Of(assignments[..n], nano) + [assignments[n]]
      else Of(assignments[..n], nano)
  }

  function Ranked(nano: nat, ids: seq<CategoryId>): seq<Assignment> {
    seq(|ids|, i requires 0 <= i < |ids| => Assignment(nano, ids[i], i))
  }

  /** The table after the categories of `nano` were set to `ids`. */
  function Reassigned(assignments: seq<Assignment>, nano: nat, ids: seq<CategoryId>): seq<Assignment> {
    Without(assignments, nano) + Ranked(nano, Deduplicated(ids))
  }

  method AssignCategories(assignments: seq<Assignment>, nano: nat, unique: seq<CategoryId>)
    returns (table: seq<Assignment>)
    ensures table == Without(assignments, nano) + Ranked(nano, unique)
  {
    table := Without(assignments, nano);
    for index := 0 to |unique|
      invariant table == Without(assignments, nano) + Ranked(nano, unique[..index])
    {
      assert Ranked(nano, unique[..index + 1]) ==
        Ranked(nano, unique[..index]) + [Assignment(nano, unique[index], index)];
      table := table + [Assignment(nano, unique[index], index)];
    }
    assert unique[..|unique|] == unique;
  }

  lemma {:induction false} OfConcat(a: seq<Assignment>, b: seq<Assignment>, nano: nat)
    ensures Of(a + b, nano) == Of(a, nano) + Of(b, nano)
  {
    if b == [] {
      assert a + b == a;
    } else {
      var n := |b| - 1;
      assert (a + b)[..|a + b| - 1] == a + b[..n];
      OfConcat(a, b[..n], nano);
    }
  }

  lemma {:induction false} OfWithout(assignments: seq<Assignment>, removed: nat, nano: nat)
    ensures Of(Without(assignments, removed), nano) == if nano == removed then [] else Of(assignments, nano)
  {
    if assignments != [] {
      var n := |assignments| - 1;
      OfWithout(assignments[..n], removed, nano);
      if assignments[n].nano != removed {
        OfConcat(Without(assignments[..n], removed), [assignments[n]], nano);
        assert [assignments[n]][..0] == [];
      }
    }
  }

  lemma {:induction false} OfUniform(rows: seq<Assignment>, owner: nat, nano: nat)
    requires forall r | r in rows :: r.nano == owner
    ensures Of(rows, nano) == if nano == owner then rows else []
  {
    if rows != [] {
      var n := |rows| - 1;
      assert rows[n] in rows && forall r | r in rows[..n] :: r in rows;
      OfUniform(rows[..n], owner, nano);
      assert rows == rows[..n] + [rows[n]];
    }
  }

  /** The nano gets exactly the deduplicated categories, ranked 0, 1, 2, ...; every other nano keeps its own. */
  lemma ReassignedFacts(assignments: seq<Assignment>, nano: nat, ids: seq<CategoryId>, other: nat)
    ensures Of(Reassigned(assignments, nano, ids), other) ==
      if other == nano then Ranked(nano, Deduplicated(ids)) else Of(assignments, other)
  {
    var unique := Deduplicated(ids);
    OfConcat(Without(assignments, nano), Ranked(nano, unique), other);
    OfWithout(assignments, nano, other);
    OfUniform(Ranked(nano, unique), nano, other);
  }

  // ---- search documents -----------------------------------------------------------------------------------

  /** One row of the join: nano, rank, category name. */
  datatype Row = Row(nano: nat, rank: int, name: string)

  predicate TextAtMost(a: string, b: string) {
    if a == [] then true
    else if b == [] then false
    else a[0] < b[0] || (a[0] == b[0] && TextAtMost(a[1..], b[1..]))
  }

  /** ORDER BY nano_id, rank, name. */
  function RowAtMost(): (Row, Row) -> bool {
    (a: Row, b: Row) =>
      a.nano < b.nano || (a.nano == b.nano && (a.rank < b.rank || (a.rank == b.rank && TextAtMost(a.name, b.name))))
  }

  function Joined(assignments: seq<Assignment>, categories: seq<string>): seq<Row> {
    if assignments == [] then []
    else
      var n := |assignments| - 1;
      var a := assignments[n];
      if a.category < |categories| then
        Joined(assignments[..n], categories) + [Row(a.nano, a.rank, categories[a.category])]
      else Joined(assignments[..n], categories)
  }

  function CategoryRows(assignments: seq<Assignment>, categories: seq<string>): seq<Row> {
    Sort(Joined(assignments, categories), RowAtMost())
  }

  /** The name in the first row of a nano. */
  function PrimaryOf(rows: seq<Row>, nano: nat): Option<string> {
    if rows == [] then None
    else
      var n := |rows| - 1;
      var before := PrimaryOf(rows[..n], nano);
      if before.None? && rows[n].nano == nano then Some(rows[n].name) else before
  }

  /** primary_categories: setdefault over the ordered rows. */
  method PrimaryCategories(rows: seq<Row>) returns (primary: map<nat, string>)
    ensures forall nano :: (nano in primary <==> PrimaryOf(rows, nano).Some?)
    ensures forall nano :: nano in primary ==> PrimaryOf(rows, nano) == Some(primary[nano])
  {
    primary := map[];
    for i := 0 to |rows|
      invariant forall nano :: (nano in primary <==> PrimaryOf(rows[..i], nano).Some?)
      invariant forall nano :: nano in primary ==> PrimaryOf(rows[..i], nano) == Some(primary[nano])
    {
      assert rows[..i + 1][..i] == rows[..i];
      if rows[i].nano !in primary {
        primary := primary[rows[i].nano := rows[i].name];
      }
    }
    assert rows[..|rows|] == rows;
  }

  /** The category a search document shows for a nano. */
  function DocumentCategory(assignments: seq<Assignment>, categories: seq<string>, nano: nat): Option<string> {
    PrimaryOf(CategoryRows(assignments, categories), nano)
  }

  lemma {:induction false} TextTotal(a: string, b: string, c: string)
    ensures TextAtMost(a, b) || TextAtMost(b, a)
    ensures TextAtMost(a, b) && TextAtMost(b, c) ==> TextAtMost(a, c)
  {
    if a != [] && b != [] {
      TextTotal(a[1..], b[1..], if c != [] then c[1..] else []);
    }
  }

  lemma RowsTotal()
    ensures TotalOrder(RowAtMost())
  {
    forall a: Row, b: Row
      ensures RowAtMost()(a, b) || RowAtMost()(b, a)
    {
      TextTotal(a.name, b.name, b.name);
    }
    forall a: Row, b: Row, c: Row | RowAtMost()(a, b) && RowAtMost()(b, c)
      ensures RowAtMost()(a, c)
    {
      TextTotal(a.name, b.name, c.name);
    }
  }

  lemma {:induction false} JoinedMembers(assignments: seq<Assignment>, categories: seq<string>, r: Row)
    ensures r in Joined(assignments, categories) <==>
      exists a | a in Of(assignments, r.nano) ::
        a.category < |categories| && r == Row(a.nano, a.rank, categories[a.category])
  {
    if assignments != [] {
      var n := |assignments| - 1;
      JoinedMembers(assignments[..n], categories, r);
      var before := Of(assignments[..n], r.nano);
      if assignments[n].nano == r.nano {
        assert forall a :: a in before + [assignments[n]] <==> a in before || a == assignments[n];
      }
    }
  }

  lemma {:induction false} PrimaryIsFirst(rows: seq<Row>, nano: nat)
    ensures PrimaryOf(rows, nano).None? ==> forall i | 0 <= i < |rows| :: rows[i].nano != nano
    ensures PrimaryOf(rows, nano).Some? ==> exists i ::
      && 0 <= i < |rows| && rows[i].nano == nano && PrimaryOf(rows, nano) == Some(rows[i].name)
      && forall j | 0 <= j < i :: rows[j].nano != nano
  {
    if rows != [] {
      var n := |rows| - 1;
      PrimaryIsFirst(rows[..n], nano);
      if PrimaryOf(rows[..n], nano).Some? {
        var i :| 0 <= i < n && rows[..n][i].nano == nano && PrimaryOf(rows[..n], nano) == Some(rows[..n][i].name)
          && forall j | 0 <= j < i :: rows[..n][j].nano != nano;
        assert rows[i].nano == nano && forall j | 0 <= j < i :: rows[j].nano == rows[..n][j].nano;
      } else if rows[n].nano == nano {
        assert forall j | 0 <= j < n :: rows[j] == rows[..n][j];
      } else {
        assert forall j | 0 <= j < n :: rows[j] == rows[..n][j];
      }
    }
  }

  /** The joined rows of a nano whose stored rows are `ids` ranked in order. */
  lemma RowsOfRanked(assignments: seq<Assignment>, categories: seq<string>, nano: nat, ids: seq<CategoryId>, r: Row)
    requires Of(assignments, nano) == Ranked(nano, ids) && r.nano == nano
    requires forall i | 0 <= i < |ids| :: ids[i] < |categories|
    ensures r in Joined(assignments, categories) <==>
      0 <= r.rank < |ids| && r.name == categories[ids[r.rank]]
  {
    hide Joined, Of;
    JoinedMembers(assignments, categories, r);
    if 0 <= r.rank < |ids| {
      assert Ranked(nano, ids)[r.rank] == Assignment(nano, ids[r.rank], r.rank);
    }
  }

  lemma RowsAreJoined(assignments: seq<Assignment>, categories: seq<string>, r: Row)
    ensures r in CategoryRows(assignments, categories) <==> r in Joined(assignments, categories)
    ensures SortedBy(CategoryRows(assignments, categories), RowAtMost())
  {
    hide Sort, Joined;
    var joined, rows := Joined(assignments, categories), CategoryRows(assignments, categories);
    RowsTotal();
    SortSorted(joined, RowAtMost());
    assert r in multiset(rows) <==> r in multiset(joined);
  }

  /** A nano whose stored rows are `ids` ranked in order is shown under the first of them, or under none. */
  lemma DocumentShowsFirst(assignments: seq<Assignment>, categories: seq<string>, nano: nat, ids: seq<CategoryId>)
    requires Of(assignments, nano) == Ranked(nano, ids)
    requires forall i | 0 <= i < |ids| :: ids[i] < |categories|
    ensures DocumentCategory(assignments, categories, nano) == if ids == [] then None else Some(categories[ids[0]])
  {
    hide PrimaryOf, Joined, Of, Ranked, CategoryRows;
    var rows := CategoryRows(assignments, categories);
    PrimaryIsFirst(rows, nano);
    forall r: Row | r.nano == nano
      ensures r in rows <==> 0 <= r.rank < |ids| && r.name == categories[ids[r.rank]]
    {
      RowsAreJoined(assignments, categories, r);
      RowsOfRanked(assignments, categories, nano, ids, r);
    }
    if ids != [] {
      var top := Row(nano, 0, categories[ids[0]]);
      RowsAreJoined(assignments, categories, top);
      assert top in rows;
      var k :| 0 <= k < |rows| && rows[k] == top;
      var i :| 0 <= i < |rows| && rows[i].nano == nano && PrimaryOf(rows, nano) == Some(rows[i].name)
        && forall j | 0 <= j < i :: rows[j].nano != nano;
      assert rows[i] in rows && i <= k;
      assert i < k ==> RowAtMost()(rows[i], rows[k]);
    }
  }

  /** From request to search index: the document carries the name of the first category requested. */
  lemma FirstRequestedIsShown(assignments: seq<Assignment>, categories: seq<string>, nano: nat, ids: seq<CategoryId>)
    requires forall i | 0 <= i < |ids| :: ids[i] < |categories|
    ensures DocumentCategory(Reassigned(assignments, nano, ids), categories, nano) ==
      if ids == [] then None else Some(categories[ids[0]])
  {
    ReassignedFacts(assignments, nano, ids, nano);
    DeduplicatedFacts(ids);
    assert forall i | 0 <= i < |Deduplicated(ids)| :: Deduplicated(ids)[i] in ids;
    DocumentShowsFirst(Reassigned(assignments, nano, ids), categories, nano, Deduplicated(ids));
  }
}
