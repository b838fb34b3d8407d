# Special price bulk resolver — a Dafny model

This project models Magento's catalog `SpecialPriceBulkResolver`. The resolver
answers one question for a whole product listing at once: which of the listed
products has a special price in a store. It does this with one batched query.

- Configurable products are joined to their child products.
- Every product, or each of its children, is joined to its row in the price index.
- A row's `hasSpecialPrice` column is `final_price < price`. It is NULL when no
  price-index row was joined.
- The fetched rows are folded into an array keyed by the parent's entity id.
  - The first row for an id stores the `(bool)` cast of its flag.
  - Each later row can only raise the stored value to `true`.

The model has three modules.

- `Php` holds the PHP runtime behaviour the resolver relies on:
  - the `(bool)` cast of a nullable flag;
  - loose `>` against a bool;
  - decimal rendering of integers;
  - `array_unique`;
  - `implode`.
- `SpecialPriceFold` holds the row fold. It has two forms:
  - `FoldRows`, a function that mirrors the loop branch for branch;
  - `BuildSpecialPriceMap`, the loop itself as a method.

  Both are proved equal to an independent reference, `OrByEntity`: for each
  entity id that occurs, the OR of its rows' flags.
- `SpecialPriceBulkResolution` holds the rest:
  - `Connection` models the database connection, with a log of the queries run.
  - `SpecialPriceBulkResolver` models the resolver class.
  - The cache-key and cache-tag helpers `getCacheKey` and `saveCachedData` are
    modelled here too.

The PHP result is an ordered array. It is modelled as `SpecialPriceMap`, which
has two parts:
- `keys`: the ids in insertion order, which is the order of first occurrence in
  the rows;
- `flags`: the mapping from id to flag.

The model follows the code as written, including the points below, which a reader
might expect to behave otherwise.

- **Empty collection.** The guard `!$productCollection` short-circuits only a
  null collection, because a PHP object is always truthy. An empty but non-null
  collection reaches the query as `e.entity_id IN ()`, which is invalid SQL, and
  the database error propagates to the caller, as the method's `@throws` allows.
  The model returns `Failure(SqlSyntaxError)` after logging the query.
- **Cache key order.** The cache key is built from the ids in the order
  `getAllIds()` returns them. They are not sorted, so two collections that list
  the same ids in a different order give different keys.
- **Absent versus false.** Products that do not exist have no key in the map.
  Existing products with no price-index row map to `false`.

## Model

| member | source | states |
|---|---|---|
| Php.ToBool | app/code/Magento/Catalog/Pricing/Price/SpecialPriceBulkResolver.php:117 | The `(bool)` cast of a flag that may be NULL is true only for the value 1. NULL and 0 cast to false. |
| Php.GreaterThanBool | app/code/Magento/Catalog/Pricing/Price/SpecialPriceBulkResolver.php:119 | Loose `>` against a stored bool can be true only when the stored value is false. Against false, it is the flag's cast. Raising on it therefore gives the OR of the stored value and the flag. |
| Php.IntToString | app/code/Magento/Catalog/Pricing/Price/SpecialPriceBulkResolver.php:143 | An integer renders as a non-empty string that starts with `-` exactly when the integer is negative. |
| Php.Implode | app/code/Magento/Catalog/Pricing/Price/SpecialPriceBulkResolver.php:145 | A non-empty list of pieces joins into a string that begins with the first piece and ends with the last. |
| SpecialPriceFold.FoldRows | app/code/Magento/Catalog/Pricing/Price/SpecialPriceBulkResolver.php:115-124 | The loop's map has no keys when no rows were fetched. Otherwise the last row's entity id is always a key, so any row gives a non-empty map. |
| SpecialPriceFold.HasSpecialPriceColumn | app/code/Magento/Catalog/Pricing/Price/SpecialPriceBulkResolver.php:99-108 | The column is NULL exactly when no price-index row was joined. Otherwise it is true exactly when the final price is below the price. |
| SpecialPriceFold.Step | app/code/Magento/Catalog/Pricing/Price/SpecialPriceBulkResolver.php:116-121 | One row adds its entity id to the keys and leaves every other id unchanged. The new flag is the old flag OR the row's cast flag, so a true flag stays true. |
| SpecialPriceFold.FoldRowsKeys | app/code/Magento/Catalog/Pricing/Price/SpecialPriceBulkResolver.php:115-122 | The folded map has exactly the entity ids of the fetched rows as keys. |
| SpecialPriceFold.FoldRowsFlags | app/code/Magento/Catalog/Pricing/Price/SpecialPriceBulkResolver.php:116-121 | Each id's flag is true exactly when some row for that id has a true special-price flag. |
| SpecialPriceFold.FoldRowsIsOrByEntity | app/code/Magento/Catalog/Pricing/Price/SpecialPriceBulkResolver.php:114-124 | The loop's map equals the reference definition: for each id that occurs, the OR of its rows' flags. |
| SpecialPriceFold.FoldSeesOnlyIdAndTruth | app/code/Magento/Catalog/Pricing/Price/SpecialPriceBulkResolver.php:116-120 | Rows that agree position by position on entity id and on the truth of the flag fold to the same map. Child id and identifier do not matter. |
| SpecialPriceFold.NullFlagCountsAsFalse | app/code/Magento/Catalog/Pricing/Price/SpecialPriceBulkResolver.php:108-117 | Replacing a NULL flag with 0 does not change the result. |
| SpecialPriceFold.OnlyNullRowsMapToFalse | app/code/Magento/Catalog/Pricing/Price/SpecialPriceBulkResolver.php:99-121 | An id that has rows, all of them with a NULL flag (no price-index row), is present and maps to false. |
| SpecialPriceFold.FoldNeverLowersAFlag | app/code/Magento/Catalog/Pricing/Price/SpecialPriceBulkResolver.php:116-121 | Rows fetched later never remove a key and never turn a true flag back to false. |
| SpecialPriceFold.FoldDependsOnlyOnRowSet | app/code/Magento/Catalog/Pricing/Price/SpecialPriceBulkResolver.php:114-124 | Two row lists with the same set of rows give the same id-to-flag pairs, whatever the order or the repetitions. |
| SpecialPriceFold.FoldOrderIndependent | app/code/Magento/Catalog/Pricing/Price/SpecialPriceBulkResolver.php:114-124 | Any permutation of the fetched rows gives the same id-to-flag pairs. The key order follows the rows and can change. |
| SpecialPriceFold.ConfigurableParentExample | app/code/Magento/Catalog/Pricing/Price/SpecialPriceBulkResolver.php:99-121 | Worked example: a configurable product with one discounted child maps to true; a product at full price maps to false; a product with no price-index row maps to false. |
| SpecialPriceFold.BuildSpecialPriceMap | app/code/Magento/Catalog/Pricing/Price/SpecialPriceBulkResolver.php:114-124 | The loop's map equals `FoldRows` and `OrByEntity`. Its keys are the distinct entity ids in first-occurrence order, with no duplicates, and the keys are exactly the mapped ids. |
| SpecialPriceBulkResolution.Connection.constructor | app/code/Magento/Catalog/Pricing/Price/SpecialPriceBulkResolver.php:58 | Stand-in for the injected `$resource` used at line 86. It is a modelling assumption: the connection is fixed over a catalog snapshot and starts with no queries logged. |
| SpecialPriceBulkResolution.Connection.FetchAll | app/code/Magento/Catalog/Pricing/Price/SpecialPriceBulkResolver.php:104-113 | The query is recorded. An empty id list fails with a syntax error; otherwise the snapshot's rows are returned. |
| SpecialPriceBulkResolution.SpecialPriceBulkResolver.constructor | app/code/Magento/Catalog/Pricing/Price/SpecialPriceBulkResolver.php:57-67 | The resolver keeps the given connection. |
| SpecialPriceBulkResolution.SpecialPriceBulkResolver.GenerateSpecialPriceMap | app/code/Magento/Catalog/Pricing/Price/SpecialPriceBulkResolver.php:77-131 | See the contract summary below the table. |
| SpecialPriceBulkResolution.CacheKeyParts | app/code/Magento/Catalog/Pricing/Price/SpecialPriceBulkResolver.php:142-143 | The parts are the collection's ids as decimal strings, in the order `getAllIds()` returns them, followed by `store_id_<storeId>`. |
| SpecialPriceBulkResolution.CacheKeySourceDiffersByStore | app/code/Magento/Catalog/Pricing/Price/SpecialPriceBulkResolver.php:142-145 | For the same collection, two stores give different strings to hash. |
| SpecialPriceBulkResolution.CacheKeyPartsFollowCollectionOrder | app/code/Magento/Catalog/Pricing/Price/SpecialPriceBulkResolver.php:142-143 | Two collections give the same key parts only when they list the same ids in the same order. |
| SpecialPriceBulkResolution.CacheKey | app/code/Magento/Catalog/Pricing/Price/SpecialPriceBulkResolver.php:140-146 | No ensures of its own, because the hash is a parameter (see its line under "## Left out"). What it hashes is stated by `CacheKeyParts` and `CacheKeySourceDiffersByStore`. |
| SpecialPriceBulkResolution.ProductTag | app/code/Magento/Catalog/Pricing/Price/SpecialPriceBulkResolver.php:181 | A product tag starts with `cat_p_` and is never one of the three fixed tags. |
| SpecialPriceBulkResolution.ProductTagInjective | app/code/Magento/Catalog/Pricing/Price/SpecialPriceBulkResolver.php:181 | `cat_p_<id>` tags of distinct ids differ, and no product tag equals a fixed tag. |
| SpecialPriceBulkResolution.TagListHasNoDuplicates | app/code/Magento/Catalog/Pricing/Price/SpecialPriceBulkResolver.php:174-182 | The three fixed tags followed by one tag per distinct identifier contain no repeated tag. |
| SpecialPriceBulkResolution.TagListNamesExactlyTheIdentifiers | app/code/Magento/Catalog/Pricing/Price/SpecialPriceBulkResolver.php:174-182 | An identifier's tag is in the list exactly when the identifier is. |
| SpecialPriceBulkResolution.ProductTagListIsExact | app/code/Magento/Catalog/Pricing/Price/SpecialPriceBulkResolver.php:174-182 | The product tag list names exactly the given identifiers and repeats no tag. |
| SpecialPriceBulkResolution.CacheTags | app/code/Magento/Catalog/Pricing/Price/SpecialPriceBulkResolver.php:172-182 | The tags are `cat_c`, `cat_p` and `price`, then `cat_p_<id>` for each distinct identifier in first-occurrence order. A product's tag is present exactly when its id was given, and no tag repeats. |
| Php.Distinct | app/code/Magento/Catalog/Pricing/Price/SpecialPriceBulkResolver.php:179 | `array_unique` keeps exactly the elements of its input, with no repeats and no growth in length. |
| Php.DistinctKeepsFirstOccurrenceOrder | app/code/Magento/Catalog/Pricing/Price/SpecialPriceBulkResolver.php:179-182 | `array_unique` lists elements in the order of their first occurrences. |
| Php.IntToStringInjective | app/code/Magento/Catalog/Pricing/Price/SpecialPriceBulkResolver.php:143 | Distinct integers render as distinct decimal strings. |

**SpecialPriceBulkResolution.SpecialPriceBulkResolver.GenerateSpecialPriceMap**
promises the following.
- A null collection yields an empty map, and no query is run.
- Otherwise exactly one price query runs on the resource connection, for the
  collection's ids and the store.
  - The call fails exactly when the id list is empty.
  - On success, the map is the per-id OR of the returned rows, keyed in
    first-occurrence order.
  - When the database answers according to the query's filter and joins, the
    mapped ids are exactly the requested ids that exist in the catalog.

## Left out

- The SQL text, table names and join conditions are not modelled. The query is
  reduced to `Query(storeId, productIds)`. What the joins guarantee is stated as
  `AnswersQuery`: only requested, existing ids come back, and every such id gets
  at least one row because all joins are left joins.
- The `metadataPool` link field is not modelled. The `identifier` column is
  carried as an integer field of `Row`.
- `getAllIds()` is modelled as the collection's id list. On an EAV collection it
  runs its own `fetchCol` select, which the query log does not record. Its
  failures fall under the next line.
- Database failures other than the empty `IN ()` list are not modelled. These
  include connection loss and missing tables, which belong to the database
  layer.
- Cache load and save are not modelled. They are commented out or unreachable in
  `generateSpecialPriceMap`: the `true ||` guard makes the cache-hit branch
  dead. This covers `getCachedData`, `cache->save` and the JSON encoding and
  decoding of the map. `saveCachedData` is modelled only up to the tag list it
  builds.
- `cacheLifeTime` is not modelled, because it is only passed through to the
  cache.
- The identifier collection in the commented-out `saveCachedData` call
  (`array_column`) is not modelled. That call is not part of the executed code.
- SpecialPriceBulkResolution.CacheKey: SHA-256 is not modelled. The hash is a
  function parameter, so the key is stated about the string that is hashed.
- SQL decimal prices are modelled as `real`. Rounding of the index's decimal
  columns is not modelled.
- A joined price-index row is assumed to have non-NULL `final_price` and
  `price`. SQL's `<` also gives NULL when either is NULL, and
  `HasSpecialPriceColumn` does not cover that case. The fold lemmas hold for any
  flag, NULL or not.
- Array keys are modelled as integer entity ids. PHP's normalisation of numeric
  string keys to integers is taken as given.
- `Category::CACHE_TAG` and `Product::CACHE_TAG` are taken as `cat_c` and
  `cat_p`. The Category and Product model classes are not part of this model.
