/**
 * `SpecialPriceBulkResolver`: decides, for a batch of products and a store, which
 * products have an active special price. It runs one batched query through the
 * database connection and folds the rows it returns (see SpecialPriceFold); the
 * cache key and cache tags it would use for a result cache are built by two
 * helpers that the resolver does not currently call.
 */
module SpecialPriceBulkResolution {
  import opened Php
  import opened SpecialPriceFold

  /**
   * A product collection, reduced to the entity ids `getAllIds()` returns, in the
   * order it returns them.
   */
  datatype ProductCollection = ProductCollection(allIds: seq<int>)

  /**
   * One batched special-price query: the store id, which the query compares with
   * the price index's `website_id`, and the requested entity ids.
   */
  datatype Query = Query(storeId: int, productIds: seq<int>)

  /** Why the query fails: an empty id list renders as `e.entity_id IN ()`, which SQL rejects. */
  datatype DbError = SqlSyntaxError

  /**
   * What the database returns for a query: rows only for requested ids of existing
   * products (the `IN` filter), and at least one row for each of those (every join
   * is a left join).
   */
  ghost predicate AnswersQuery(entities: set<int>, q: Query, rows: seq<Row>) {
    && (forall r | r in rows :: r.entityId in q.productIds && r.entityId in entities)
    && (forall id | id in q.productIds && id in entities :: id in EntityIdSet(rows))
  }

  /**
   * The database connection, over a fixed snapshot of the catalog: `entities` are
   * the ids in `catalog_product_entity`, `answer` gives the rows the batched query
   * returns. `queries` records every query that was run, in order.
   */
  class Connection {
    const entities: set<int>
    const answer: Query -> seq<Row>
    var queries: seq<Query>

    /** The snapshot's answers agree with the query's filter and joins. */
    ghost predicate WellFormed() {
      forall q :: AnswersQuery(entities, q, answer(q))
    }

    constructor (entities: set<int>, answer: Query -> seq<Row>)
      ensures this.entities == entities && this.answer == answer && queries == []
    {
      this.entities := entities;
      this.answer := answer;
      queries := [];
    }

    /** `fetchAll` of the batched select: logs the query, fails on an empty id list. */
    method FetchAll(q: Query) returns (r: Result<seq<Row>, DbError>)
      modifies this
      ensures queries == old(queries) + [q]
      ensures q.productIds == [] ==> r == Failure(SqlSyntaxError)
      ensures q.productIds != [] ==> r == Success(answer(q))
    {
      queries := queries + [q];
      if q.productIds == [] {
        r := Failure(SqlSyntaxError);
      } else {
        r := Success(answer(q));
      }
    }
  }

  class SpecialPriceBulkResolver {
    const resource: Connection

    constructor (resource: Connection)
      ensures this.resource == resource
    {
      this.resource := resource;
    }

    /**
     * A null collection yields an empty map without any query. Otherwise exactly one
     * price query runs on the resource connection, and its rows are folded into the
     * map; an empty (non-null) collection is not caught and the query fails.
     */
    method GenerateSpecialPriceMap(storeId: int, productCollection: Option<ProductCollection>)
      returns (r: Result<SpecialPriceMap, DbError>)
      modifies resource
      ensures productCollection.None? ==>
        r == Success(SpecialPriceMap([], map[])) && resource.queries == old(resource.queries)
      ensures productCollection.Some? ==>
        var q := Query(storeId, productCollection.value.allIds);
        && resource.queries == old(resource.queries) + [q]
        && (r.Failure? <==> q.productIds == [])
        && (r.Success? ==>
              && r.value.flags == OrByEntity(resource.answer(q))
              && r.value.keys == Distinct(EntityIds(resource.answer(q))))
      ensures resource.WellFormed() && productCollection.Some? && r.Success? ==>
        forall id :: id in r.value.flags <==> id in productCollection.value.allIds && id in resource.entities
    {
      if productCollection.None? {
        return Success(SpecialPriceMap([], map[]));
      }
      var q := Query(storeId, productCollection.value.allIds);
      var data := resource.FetchAll(q);
      if data.Failure? {
        return Failure(data.error);
      }
      var specialPriceMap := BuildSpecialPriceMap(data.value);
      r := Success(specialPriceMap);
      if resource.WellFormed() {
        assert AnswersQuery(resource.entities, q, data.value);
      }
    }
  }

  /**
   * The parts `getCacheKey` hashes: the collection's ids in `getAllIds()` order, then
   * `store_id_<storeId>`.
   */
  function CacheKeyParts(storeId: int, productCollection: ProductCollection): (parts: seq<string>)
    ensures |parts| == |productCollection.allIds| + 1
    ensures forall i | 0 <= i < |productCollection.allIds| ::
      parts[i] == IntToString(productCollection.allIds[i])
    ensures parts[|parts| - 1] == "store_id_" + IntToString(storeId)
  {
    var ids := productCollection.allIds;
    seq(|ids|, i requires 0 <= i < |ids| => IntToString(ids[i])) + ["store_id_" + IntToString(storeId)]
  }

  /** `getCacheKey`: the parts joined by `_`, hashed; the hash function is a parameter. */
  function CacheKey(hash: string -> string, storeId: int, productCollection: ProductCollection): string {
    hash(Implode("_", CacheKeyParts(storeId, productCollection)))
  }

  lemma ImplodeAppend(glue: string, pieces: seq<string>, last: string)
    ensures Implode(glue, pieces + [last]) == (if pieces == [] then "" else Implode(glue, pieces) + glue) + last
  {
    assert (pieces + [last])[..|pieces|] == pieces;
  }

  /** The same collection in two different stores gives two different strings to hash. */
  lemma CacheKeySourceDiffersByStore(productCollection: ProductCollection, storeA: int, storeB: int)
    requires storeA != storeB
    ensures Implode("_", CacheKeyParts(storeA, productCollection))
         != Implode("_", CacheKeyParts(storeB, productCollection))
  {
    var a, b := CacheKeyParts(storeA, productCollection), CacheKeyParts(storeB, productCollection);
    var n := |productCollection.allIds|;
    var ids := a[..n];
    assert b[..n] == ids;
    assert a == ids + [a[n]] && b == ids + [b[n]];
    ImplodeAppend("_", ids, a[n]);
    ImplodeAppend("_", ids, b[n]);
    var prefix := if ids == [] then "" else Implode("_", ids) + "_";
    IntToStringInjective(storeA, storeB);
    assert a[n][9..] == IntToString(storeA) != IntToString(storeB) == b[n][9..];
    assert (prefix + a[n])[|prefix|..] == a[n];
    assert (prefix + b[n])[|prefix|..] == b[n];
  }

  /**
   * The key parts keep the collection's order: two id lists that differ, including
   * two orders of the same ids, give different parts.
   */
  lemma CacheKeyPartsFollowCollectionOrder(storeId: int, c: ProductCollection, d: ProductCollection)
    requires c.allIds != d.allIds
    ensures CacheKeyParts(storeId, c) != CacheKeyParts(storeId, d)
  {
    var pc, pd := CacheKeyParts(storeId, c), CacheKeyParts(storeId, d);
    if |c.allIds| == |d.allIds| {
      var i :| 0 <= i < |c.allIds| && c.allIds[i] != d.allIds[i];
      IntToStringInjective(c.allIds[i], d.allIds[i]);
      assert pc[i] != pd[i];
    }
  }

  /** `Category::CACHE_TAG` and `Product::CACHE_TAG`. */
  const CATEGORY_CACHE_TAG: string := "cat_c"
  const PRODUCT_CACHE_TAG: string := "cat_p"

  /** The tags every cached special-price map carries. */
  const FIXED_TAGS: seq<string> := [CATEGORY_CACHE_TAG, PRODUCT_CACHE_TAG, "price"]

  /** The invalidation tag of one product: `cat_p_<identifier>`. */
  function ProductTag(identifier: int): (t: string)
    ensures |t| > 6 && t[..6] == PRODUCT_CACHE_TAG + "_"
    ensures t !in FIXED_TAGS
  {
    PRODUCT_CACHE_TAG + "_" + IntToString(identifier)
  }

  /** Different identifiers give different product tags, and none is a fixed tag. */
  lemma ProductTagInjective(a: int, b: int)
    ensures ProductTag(a) == ProductTag(b) ==> a == b
    ensures ProductTag(a) !in FIXED_TAGS
  {
    assert |ProductTag(a)| > 6;
    if ProductTag(a) == ProductTag(b) {
      assert IntToString(a) == ProductTag(a)[6..] == ProductTag(b)[6..] == IntToString(b);
      IntToStringInjective(a, b);
    }
  }

  /** A tag function that never gives one tag to two identifiers nor a fixed tag. */
  ghost predicate TagsApart(tag: int -> string) {
    && (forall a, b :: tag(a) == tag(b) ==> a == b)
    && (forall a :: tag(a) !in FIXED_TAGS)
  }

  lemma ProductTagsApart()
    ensures TagsApart(ProductTag)
  {
    forall a, b ensures ProductTag(a) == ProductTag(b) ==> a == b {
      ProductTagInjective(a, b);
    }
    forall a ensures ProductTag(a) !in FIXED_TAGS {
      ProductTagInjective(a, a);
    }
  }

  /** `tag` applied to each identifier, in order. */
  function Tagged(tag: int -> string, identifiers: seq<int>): seq<string> {
    if identifiers == [] then []
    else Tagged(tag, identifiers[..|identifiers| - 1]) + [tag(identifiers[|identifiers| - 1])]
  }

  lemma {:induction false} TaggedAt(tag: int -> string, identifiers: seq<int>)
    ensures |Tagged(tag, identifiers)| == |identifiers|
    ensures forall i | 0 <= i < |identifiers| :: Tagged(tag, identifiers)[i] == tag(identifiers[i])
  {
    if identifiers != [] {
      TaggedAt(tag, identifiers[..|identifiers| - 1]);
    }
  }

  lemma TaggedAppend(tag: int -> string, identifiers: seq<int>, k: nat)
    requires k < |identifiers|
    ensures Tagged(tag, identifiers[..k + 1]) == Tagged(tag, identifiers[..k]) + [tag(identifiers[k])]
  {
    assert identifiers[..k + 1][..k] == identifiers[..k];
  }

  lemma FixedTagsDistinct()
    ensures NoDuplicates(FIXED_TAGS)
  {
    assert FIXED_TAGS[0][4] == 'c' && FIXED_TAGS[1][4] == 'p' && FIXED_TAGS[2][4] == 'e';
  }

  lemma ConcatHasNoDuplicates<T>(a: seq<T>, b: seq<T>)
    requires NoDuplicates(a) && NoDuplicates(b)
    requires forall x | x in b :: x !in a
    ensures NoDuplicates(a + b)
  {
    forall i, j | 0 <= i < j < |a + b| ensures (a + b)[i] != (a + b)[j] {
      if j >= |a| {
        assert (a + b)[j] == b[j - |a|] && b[j - |a|] in b;
      }
    }
  }

  /** Distinct identifiers give a tag list without repeats. */
  lemma TagListHasNoDuplicates(tag: int -> string, identifiers: seq<int>)
    requires TagsApart(tag) && NoDuplicates(identifiers)
    ensures NoDuplicates(FIXED_TAGS + Tagged(tag, identifiers))
  {
    var tags := Tagged(tag, identifiers);
    TaggedAt(tag, identifiers);
    forall i, j | 0 <= i < j < |tags| ensures tags[i] != tags[j] {
      assert tags[i] == tag(identifiers[i]) && tags[j] == tag(identifiers[j]);
      assert identifiers[i] != identifiers[j];
    }
    forall t | t in tags ensures t !in FIXED_TAGS {
      var k :| 0 <= k < |tags| && tags[k] == t;
      assert t == tag(identifiers[k]);
    }
    FixedTagsDistinct();
    ConcatHasNoDuplicates(FIXED_TAGS, tags);
  }

  /** An identifier's tag is in the list exactly when the identifier is. */
  lemma TagListNamesExactlyTheIdentifiers(tag: int -> string, identifiers: seq<int>, id: int)
    requires TagsApart(tag)
    ensures tag(id) in FIXED_TAGS + Tagged(tag, identifiers) <==> id in identifiers
  {
    var tags := Tagged(tag, identifiers);
    TaggedAt(tag, identifiers);
    if id in identifiers {
      var k :| 0 <= k < |identifiers| && identifiers[k] == id;
      assert tags[k] == tag(id);
    }
    assert tag(id) !in FIXED_TAGS;
    assert tag(id) in FIXED_TAGS + tags <==> tag(id) in tags;
    if tag(id) in tags {
      var k :| 0 <= k < |tags| && tags[k] == tag(id);
      assert tag(identifiers[k]) == tag(id);
      assert identifiers[k] == id;
    }
  }

  /**
   * The tag list for the rows' identifiers: the fixed tags and one product tag per
   * distinct identifier, each tag once.
   */
  lemma ProductTagListIsExact(productTags: seq<int>)
    ensures NoDuplicates(FIXED_TAGS + Tagged(ProductTag, Distinct(productTags)))
    ensures forall id ::
      ProductTag(id) in FIXED_TAGS + Tagged(ProductTag, Distinct(productTags)) <==> id in productTags
  {
    var unique := Distinct(productTags);
    ProductTagsApart();
    TagListHasNoDuplicates(ProductTag, unique);
    forall id ensures ProductTag(id) in FIXED_TAGS + Tagged(ProductTag, unique) <==> id in productTags {
      TagListNamesExactlyTheIdentifiers(ProductTag, unique, id);
    }
  }

  /**
   * The tag list `saveCachedData` stores with a cached map: the fixed tags, then one
   * product tag per distinct identifier, in first-occurrence order, with no tag twice.
   */
  method CacheTags(productTags: seq<int>) returns (tags: seq<string>)
    ensures tags == FIXED_TAGS + Tagged(ProductTag, Distinct(productTags))
    ensures forall id :: ProductTag(id) in tags <==> id in productTags
    ensures NoDuplicates(tags)
  {
    tags := FIXED_TAGS;
    var unique := Distinct(productTags);
    for k := 0 to |unique|
      invariant tags == FIXED_TAGS + Tagged(ProductTag, unique[..k])
    {
      TaggedAppend(ProductTag, unique, k);
      tags := tags + [ProductTag(unique[k])];
    }
    assert unique[..|unique|] == unique;
    ProductTagListIsExact(productTags);
  }
}
