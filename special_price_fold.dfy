/**
 * The row fold of `SpecialPriceBulkResolver::generateSpecialPriceMap`: the rows of the
 * batched price query are folded, in order, into a PHP array from product entity id
 * to a "has special price" flag. A configurable product yields one or more rows per
 * child (one per website the child is assigned to), and its flag is the OR of its
 * rows' flags.
 */
module SpecialPriceFold {
  import opened Php

  /** The two prices of a row of the price index. */
  datatype IndexPrice = IndexPrice(finalPrice: real, price: real)

  /** One row of the batched query, with the columns the resolver selects. */
  datatype Row = Row(
    childId: Option<int>,          // link.product_id: a configurable child, NULL for other products
    hasSpecialPrice: Option<bool>, // final_price < price; NULL when no price-index row joined
    identifier: int,               // the product's link-field value
    entityId: int                  // e.entity_id
  )

  /**
   * The PHP array the fold builds: its keys in insertion order, and the flag
   * stored under each key.
   */
  datatype SpecialPriceMap = SpecialPriceMap(keys: seq<int>, flags: map<int, bool>)

  /**
   * The `hasSpecialPrice` column: SQL's `final_price < price` over the left-joined
   * price-index row, NULL when there is none (the index's prices are taken as
   * never NULL).
   */
  function HasSpecialPriceColumn(price: Option<IndexPrice>): (v: Option<bool>)
    ensures v.None? <==> price.None?
    ensures ToBool(v) <==> price.Some? && price.value.finalPrice < price.value.price
  {
    match price
    case None => None
    case Some(p) => Some(p.finalPrice < p.price)
  }

  /** The `entity_id` column of the rows, in row order. */
  function EntityIds(rows: seq<Row>): seq<int> {
    if rows == [] then [] else EntityIds(rows[..|rows| - 1]) + [rows[|rows| - 1].entityId]
  }

  /** The entity ids that occur in the rows. */
  function EntityIdSet(rows: seq<Row>): set<int> {
    set r | r in rows :: r.entityId
  }

  /**
   * One pass of the loop body: an id not yet in the map takes the row's flag cast
   * to bool; an id already there is raised to true when the row's flag compares
   * greater than the stored one.
   */
  function Step(m: map<int, bool>, row: Row): (m': map<int, bool>)
    ensures m'.Keys == m.Keys + {row.entityId}
    ensures forall id | id in m && id != row.entityId :: m'[id] == m[id]
    ensures m'[row.entityId] == ((row.entityId in m && m[row.entityId]) || ToBool(row.hasSpecialPrice))
    ensures forall id | id in m :: m[id] ==> m'[id]
  {
    if row.entityId !in m then m[row.entityId := ToBool(row.hasSpecialPrice)]
    else if GreaterThanBool(row.hasSpecialPrice, m[row.entityId]) then m[row.entityId := true]
    else m
  }

  /**
   * The flags the loop leaves in the map after the rows, taken in order: no rows
   * leave it without keys, and the last row's id is always in it.
   */
  function FoldRows(rows: seq<Row>): (m: map<int, bool>)
    ensures rows == [] ==> m.Keys == {}
    ensures rows != [] ==> rows[|rows| - 1].entityId in m
  {
    if rows == [] then map[] else Step(FoldRows(rows[..|rows| - 1]), rows[|rows| - 1])
  }

  /** Some row for `id` carries a flag that casts to true. */
  predicate SomeRowHasSpecialPrice(rows: seq<Row>, id: int) {
    exists r :: r in rows && r.entityId == id && ToBool(r.hasSpecialPrice)
  }

  /**
   * The intended map, stated without any order: every id of a row, mapped to
   * whether any of its rows has a special price.
   */
  function OrByEntity(rows: seq<Row>): map<int, bool> {
    map id | id in EntityIdSet(rows) :: SomeRowHasSpecialPrice(rows, id)
  }

  /** How one more row changes the ids and the per-id OR. */
  lemma AppendRow(init: seq<Row>, last: Row)
    ensures EntityIdSet(init + [last]) == EntityIdSet(init) + {last.entityId}
    ensures forall id ::
      (SomeRowHasSpecialPrice(init + [last], id)
       <==> SomeRowHasSpecialPrice(init, id) || (id == last.entityId && ToBool(last.hasSpecialPrice)))
  {
    var rows := init + [last];
    assert forall r :: r in rows <==> r in init || r == last;
    forall id
      ensures SomeRowHasSpecialPrice(rows, id)
          <==> SomeRowHasSpecialPrice(init, id) || (id == last.entityId && ToBool(last.hasSpecialPrice))
    {
      if SomeRowHasSpecialPrice(rows, id) {
        var r :| r in rows && r.entityId == id && ToBool(r.hasSpecialPrice);
        assert r in init || r == last;
      }
      if SomeRowHasSpecialPrice(init, id) {
        var r :| r in init && r.entityId == id && ToBool(r.hasSpecialPrice);
        assert r in rows;
      }
      if id == last.entityId && ToBool(last.hasSpecialPrice) {
        assert last in rows;
      }
    }
  }

  /** The fold's keys are the rows' entity ids. */
  lemma {:induction false} FoldRowsKeys(rows: seq<Row>)
    ensures FoldRows(rows).Keys == EntityIdSet(rows)
  {
    if rows != [] {
      var init, last := rows[..|rows| - 1], rows[|rows| - 1];
      FoldRowsKeys(init);
      assert rows == init + [last];
      AppendRow(init, last);
    }
  }

  /** The fold's flag for an id is the OR of that id's rows. */
  lemma {:induction false} FoldRowsFlags(rows: seq<Row>)
    ensures forall id | id in FoldRows(rows) :: FoldRows(rows)[id] == SomeRowHasSpecialPrice(rows, id)
  {
    if rows != [] {
      var init, last := rows[..|rows| - 1], rows[|rows| - 1];
      FoldRowsFlags(init);
      FoldRowsKeys(init);
      assert rows == init + [last];
      AppendRow(init, last);
      var prev, m := FoldRows(init), FoldRows(rows);
      assert m == Step(prev, last);
      forall id | id in m ensures m[id] == SomeRowHasSpecialPrice(rows, id) {
        if id != last.entityId {
          assert m[id] == prev[id];
        } else if SomeRowHasSpecialPrice(init, id) {
          var r :| r in init && r.entityId == id && ToBool(r.hasSpecialPrice);
          assert id in EntityIdSet(init);
        }
      }
    }
  }

  /** The fold computes the OR of the rows' flags per entity id, and nothing else. */
  lemma FoldRowsIsOrByEntity(rows: seq<Row>)
    ensures FoldRows(rows) == OrByEntity(rows)
  {
    FoldRowsKeys(rows);
    FoldRowsFlags(rows);
    var m, o := FoldRows(rows), OrByEntity(rows);
    assert m.Keys == o.Keys;
    assert forall id | id in m :: m[id] == o[id];
  }

  /**
   * Only the entity id and the truth of the flag matter: rows that agree on both,
   * position by position, fold to the same map.
   */
  lemma {:induction false} FoldSeesOnlyIdAndTruth(a: seq<Row>, b: seq<Row>)
    requires |a| == |b|
    requires forall j | 0 <= j < |a| ::
      a[j].entityId == b[j].entityId && ToBool(a[j].hasSpecialPrice) == ToBool(b[j].hasSpecialPrice)
    ensures FoldRows(a) == FoldRows(b)
  {
    if a != [] {
      var n := |a| - 1;
      FoldSeesOnlyIdAndTruth(a[..n], b[..n]);
      var m := FoldRows(a[..n]);
      assert FoldRows(a) == Step(m, a[n]) && FoldRows(b) == Step(m, b[n]);
    }
  }

  /** A row whose flag is NULL counts as a row whose flag is 0. */
  lemma NullFlagCountsAsFalse(rows: seq<Row>, i: nat)
    requires i < |rows| && rows[i].hasSpecialPrice.None?
    ensures FoldRows(rows[i := rows[i].(hasSpecialPrice := Some(false))]) == FoldRows(rows)
  {
    FoldSeesOnlyIdAndTruth(rows[i := rows[i].(hasSpecialPrice := Some(false))], rows);
  }

  /** An id whose rows all have a NULL flag (no price-index row) maps to false. */
  lemma OnlyNullRowsMapToFalse(rows: seq<Row>, id: int)
    requires exists r :: r in rows && r.entityId == id
    requires forall r | r in rows && r.entityId == id :: r.hasSpecialPrice.None?
    ensures id in FoldRows(rows) && !FoldRows(rows)[id]
  {
    FoldRowsKeys(rows);
    FoldRowsFlags(rows);
    var r :| r in rows && r.entityId == id;
    assert id in EntityIdSet(rows);
  }

  /** Rows appended later never remove a key and never turn a true flag back to false. */
  lemma {:induction false} FoldNeverLowersAFlag(rows: seq<Row>, later: seq<Row>)
    ensures forall id | id in FoldRows(rows) ::
      id in FoldRows(rows + later) && (FoldRows(rows)[id] ==> FoldRows(rows + later)[id])
    decreases |later|
  {
    if later != [] {
      var more := rows + later[..|later| - 1];
      FoldNeverLowersAFlag(rows, later[..|later| - 1]);
      assert rows + later == more + [later[|later| - 1]];
      assert (rows + later)[..|rows + later| - 1] == more;
      assert FoldRows(rows + later) == Step(FoldRows(more), later[|later| - 1]);
    } else {
      assert rows + later == rows;
    }
  }

  /** The flags depend only on which rows occur, not on their order or repetition. */
  lemma FoldDependsOnlyOnRowSet(a: seq<Row>, b: seq<Row>)
    requires forall r :: r in a <==> r in b
    ensures FoldRows(a) == FoldRows(b)
  {
    FoldRowsKeys(a);
    FoldRowsKeys(b);
    FoldRowsFlags(a);
    FoldRowsFlags(b);
    SameRowsSameOr(a, b);
  }

  lemma SameRowsSameOr(a: seq<Row>, b: seq<Row>)
    requires forall r :: r in a <==> r in b
    ensures EntityIdSet(a) == EntityIdSet(b)
    ensures forall id :: SomeRowHasSpecialPrice(a, id) == SomeRowHasSpecialPrice(b, id)
  {
    forall id | id in EntityIdSet(a) ensures id in EntityIdSet(b) {
      var r :| r in a && r.entityId == id;
      assert r in b;
    }
    forall id | id in EntityIdSet(b) ensures id in EntityIdSet(a) {
      var r :| r in b && r.entityId == id;
      assert r in a;
    }
    forall id ensures SomeRowHasSpecialPrice(a, id) == SomeRowHasSpecialPrice(b, id) {
      if SomeRowHasSpecialPrice(a, id) {
        var r :| r in a && r.entityId == id && ToBool(r.hasSpecialPrice);
        assert r in b;
      }
      if SomeRowHasSpecialPrice(b, id) {
        var r :| r in b && r.entityId == id && ToBool(r.hasSpecialPrice);
        assert r in a;
      }
    }
  }

  /**
   * Any reordering of the query's rows yields the same id-to-flag pairs; only the
   * key order, which follows the rows, can change.
   */
  lemma FoldOrderIndependent(a: seq<Row>, b: seq<Row>)
    requires multiset(a) == multiset(b)
    ensures FoldRows(a) == FoldRows(b)
  {
    forall r ensures r in a <==> r in b {
      assert r in a <==> r in multiset(a);
      assert r in b <==> r in multiset(b);
    }
    FoldDependsOnlyOnRowSet(a, b);
  }

  /**
   * A configurable product 1 whose children 11 and 12 are priced 8 of 10 and 10 of 10,
   * a simple product 20 priced 10 of 10, and a product 30 with no price-index row:
   * only the configurable product has a special price.
   */
  lemma ConfigurableParentExample()
    ensures FoldRows([
      Row(Some(11), HasSpecialPriceColumn(Some(IndexPrice(8.0, 10.0))), 1, 1),
      Row(Some(12), HasSpecialPriceColumn(Some(IndexPrice(10.0, 10.0))), 1, 1),
      Row(None, HasSpecialPriceColumn(Some(IndexPrice(10.0, 10.0))), 20, 20),
      Row(None, HasSpecialPriceColumn(None), 30, 30)
    ]) == map[1 := true, 20 := false, 30 := false]
  {
    var r0 := Row(Some(11), HasSpecialPriceColumn(Some(IndexPrice(8.0, 10.0))), 1, 1);
    var r1 := Row(Some(12), HasSpecialPriceColumn(Some(IndexPrice(10.0, 10.0))), 1, 1);
    var r2 := Row(None, HasSpecialPriceColumn(Some(IndexPrice(10.0, 10.0))), 20, 20);
    var r3 := Row(None, HasSpecialPriceColumn(None), 30, 30);
    assert [r0][..0] == [] && [r0, r1][..1] == [r0];
    assert [r0, r1, r2][..2] == [r0, r1] && [r0, r1, r2, r3][..3] == [r0, r1, r2];
    assert FoldRows([r0]) == map[1 := true];
    assert FoldRows([r0, r1]) == map[1 := true];
    assert FoldRows([r0, r1, r2]) == map[1 := true, 20 := false];
    assert FoldRows([r0, r1, r2, r3]) == Step(map[1 := true, 20 := false], r3);
  }

  /** Taking one more row is one more `Step`, and one more entity id. */
  lemma FoldRowsAppend(rows: seq<Row>, i: nat)
    requires i < |rows|
    ensures FoldRows(rows[..i + 1]) == Step(FoldRows(rows[..i]), rows[i])
    ensures EntityIds(rows[..i + 1]) == EntityIds(rows[..i]) + [rows[i].entityId]
  {
    assert rows[..i + 1][..i] == rows[..i];
  }

  /**
   * The loop at the heart of the resolver: folds the fetched rows into the map,
   * in row order. Keys are added in the order their ids first occur.
   */
  method BuildSpecialPriceMap(rows: seq<Row>) returns (m: SpecialPriceMap)
    ensures m.flags == FoldRows(rows) == OrByEntity(rows)
    ensures m.keys == Distinct(EntityIds(rows))
    ensures NoDuplicates(m.keys)
    ensures forall id :: id in m.keys <==> id in m.flags
  {
    var keys: seq<int> := [];
    var flags: map<int, bool> := map[];
    var i := 0;
    while i < |rows|
      invariant 0 <= i <= |rows|
      invariant flags == FoldRows(rows[..i])
      invariant keys == Distinct(EntityIds(rows[..i]))
      invariant forall id :: id in keys <==> id in flags
    {
      var row := rows[i];
      FoldRowsAppend(rows, i);
      DistinctAppend(EntityIds(rows[..i]), row.entityId);
      if row.entityId !in flags {
        flags := flags[row.entityId := ToBool(row.hasSpecialPrice)];
        keys := keys + [row.entityId];
      } else if GreaterThanBool(row.hasSpecialPrice, flags[row.entityId]) {
        flags := flags[row.entityId := true];
      }
      i := i + 1;
    }
    assert rows[..i] == rows;
    FoldRowsIsOrByEntity(rows);
    m := SpecialPriceMap(keys, flags);
  }
}
