# Wishlist service, modelled in Dafny

This project models the wishlist coordination service of a small e-commerce
back end. A user keeps a wishlist of products. The user and product records
belong to stores owned elsewhere, and this service only reads them. The
service owns the wishlist table: it validates and adds entries, removes them,
and serves paged per-user listings through a listing cache.

Modules, one per component:

- `WishlistTypes` (types.dfy): users, products (an integer `stock`), wishlist
  rows, listing pages, and the five exception classes as an `Error` datatype.
  The error names are the code's exception classes. Each call returns a
  `Result` instead of throwing.
- `WishlistRepository` (repository.dfy): the wishlist table is a sequence of
  rows in storage order. The module holds the queries the service issues
  (`findByUserId` paged, `findByUserIdAndProductId`, `existsByUserAndProduct`,
  `save`, `delete`) and lemmas about how saving and deleting change them.
- `ListingCache` (cache.dfy): the cache as a map from cache keys to pages.
  It defines the key the listing stores under, the key the mutations evict,
  and the freshness invariant: every cached page equals what the table would
  now return for the page and size that filled it.
- `WishlistService` (service.dfy): the service as a class. It holds the two
  read-only stores, the table, the next primary key and the cache. Its methods
  `GetWishlistItems`, `AddToWishlist` and `RemoveFromWishlist` preserve
  `Valid()`, which includes "at most one row per (user, product)". It also has
  client methods whose bodies walk through short scenarios (add, duplicate
  add, remove, repeated remove, rejected adds, listing before and after an
  add), proved from the contracts alone.

Behaviour worth knowing, modelled as the code has it:

- `addToWishlist` checks in a fixed order: user, product, stock (`stock <= 0`
  fails), duplicate. The first failing check decides the error. A failed call
  changes nothing.
- An empty page is an error (`WishlistNotFound`) and is not cached. The user
  is not looked up before listing.
- The listing is cached under `userId` alone. A cached page is returned for
  any page and size asked for afterwards. The model keeps this behaviour;
  it does not correct it.
- Cache eviction is the one place the model departs from the code, as
  recorded under "## Findings". The class evicts the user's listing on every
  successful add or remove. `ListingCache.EvictAsWritten` models the code's
  eviction, which never removes anything.

## Model

| member | source | states |
|---|---|---|
| WishlistRepository.ByUserMembers | WishList/src/main/java/com/ecommerce/WishList/repository/WishlistRepository.java:17 | `ByUser`, the unpaged `findByUserId`: the user's rows are exactly the table rows with that user id, no more and no fewer |
| WishlistRepository.Slice | WishList/src/main/java/com/ecommerce/WishList/service/WishlistService.java:37 | the page'th block of `size` elements, element by element; empty exactly when page*size reaches the end; full-sized unless it is the last block |
| WishlistRepository.FindByUserId | WishList/src/main/java/com/ecommerce/WishList/repository/WishlistRepository.java:17 | a page of the user's rows: only that user's rows, with the requested page and size, and the user's total row count |
| WishlistRepository.FindIndex | WishList/src/main/java/com/ecommerce/WishList/repository/WishlistRepository.java:20-23 | no index exactly when `ExistsByUserAndProduct` (`existsByUserAndProduct`) is false, i.e. no row matches the pair; otherwise the first row that matches |
| WishlistRepository.FindByUserIdAndProductId | WishList/src/main/java/com/ecommerce/WishList/repository/WishlistRepository.java:20 | empty exactly when no row has the (user, product) pair; otherwise a table row with that pair |
| WishlistRepository.Save | WishList/src/main/java/com/ecommerce/WishList/repository/WishlistRepository.java:13 | the table gains exactly the saved row, at the end: the old rows keep their positions and the multiset of rows grows by that one row |
| WishlistRepository.DeleteByIdMembers | WishList/src/main/java/com/ecommerce/WishList/repository/WishlistRepository.java:13 | `DeleteById`, the inherited `delete(entity)` by primary key: every row with the deleted key is gone and every other row stays |
| WishlistRepository.ByUserConcat | WishList/src/main/java/com/ecommerce/WishList/repository/WishlistRepository.java:17 | a user's rows in two tables put together are that user's rows in the first table, then in the second |
| WishlistRepository.SaveByUser | WishList/src/main/java/com/ecommerce/WishList/service/WishlistService.java:76 | a save adds the row to its own user's listing at the end and changes no other user's listing |
| WishlistRepository.RemoveAtByUser | WishList/src/main/java/com/ecommerce/WishList/service/WishlistService.java:94 | removing one row shrinks its user's rows by exactly that row, before and after it unchanged, and leaves every other user's rows equal |
| WishlistRepository.DeleteAbsentId | WishList/src/main/java/com/ecommerce/WishList/service/WishlistService.java:94 | deleting a key no row has changes nothing |
| WishlistRepository.DeleteByIdAt | WishList/src/main/java/com/ecommerce/WishList/service/WishlistService.java:94 | when no other row shares a row's key, deleting by that key removes exactly that row |
| WishlistRepository.RemoveAtKeepsInvariants | WishList/src/main/java/com/ecommerce/WishList/service/WishlistService.java:94 | removing a row keeps "one row per pair", distinct keys and keys below the generator |
| WishlistRepository.SaveKeepsInvariants | WishList/src/main/java/com/ecommerce/WishList/service/WishlistService.java:67-76 | a save that passed the duplicate check, with a fresh key, keeps "one row per pair" and distinct keys |
| WishlistRepository.SaveThenExists | WishList/src/main/java/com/ecommerce/WishList/service/WishlistService.java:67-76 | after a save the pair exists, so the same add again is a duplicate |
| WishlistRepository.DeleteFound | WishList/src/main/java/com/ecommerce/WishList/service/WishlistService.java:88-94 | removing a found pair deletes exactly one row and keeps the invariants; the pair is gone afterwards, so a second remove fails; other users are untouched |
| ListingCache.Digits | WishList/src/main/java/com/ecommerce/WishList/service/WishlistService.java:46 | a non-empty string of decimal digits, most significant first |
| ListingCache.DigitsDenote | WishList/src/main/java/com/ecommerce/WishList/service/WishlistService.java:46 | the digits produced for n denote n |
| ListingCache.DecimalString | WishList/src/main/java/com/ecommerce/WishList/service/WishlistService.java:46 | Java's decimal rendering of the user id: a leading '-' exactly for negative ids, then at least one digit, no leading zero unless the id is 0, and the digits denote the id's absolute value |
| ListingCache.ListingKeysDistinct | WishList/src/main/java/com/ecommerce/WishList/service/WishlistService.java:34 | `ListingKey`, the `key = "#userId"` of the listing: different users never share a listing key, and page and size never enter it |
| ListingCache.EvictionKeyAsWritten | WishList/src/main/java/com/ecommerce/WishList/service/WishlistService.java:46 | the evicted key is the String "<userId>-*", which differs from every key a listing is stored under |
| ListingCache.EvictAsWritten | WishList/src/main/java/com/ecommerce/WishList/service/WishlistService.java:84 | the code's eviction keeps every cached listing; on a cache that holds only listings it is the identity |
| ListingCache.Evict | WishList/src/main/java/com/ecommerce/WishList/service/WishlistService.java:46 | the intended eviction: the user's cached listing is gone and every other entry is kept unchanged |
| ListingCache.EvictKeepsFresh | WishList/src/main/java/com/ecommerce/WishList/service/WishlistService.java:46-80 | after a change confined to one user's rows, evicting that user keeps every cached page equal to the table's current page |
| ListingCache.AsWrittenEvictionKeepsStalePage | WishList/src/main/java/com/ecommerce/WishList/service/WishlistService.java:46-80 | with the code's eviction, a listing filled from the table before a successful add survives, its total is one short, and the cache is stale |
| ListingCache.AsWrittenEvictionKeepsStalePageOnDelete | WishList/src/main/java/com/ecommerce/WishList/service/WishlistService.java:84-96 | with the code's eviction, a listing filled from the table before a delete survives, its total is one too many, and the cache is stale |
| WishlistService.ListWishlist | WishList/src/main/java/com/ecommerce/WishList/service/WishlistService.java:35-43 | the listing succeeds exactly when the page starts inside the user's rows; it is then that non-empty page, and otherwise the error is WishlistNotFound |
| WishlistService.WishlistService.constructor | WishList/src/main/java/com/ecommerce/WishList/service/WishlistService.java:26-32 | the service starts over the given stores and table with an empty cache |
| WishlistService.WishlistService.GetWishlistItems | WishList/src/main/java/com/ecommerce/WishList/service/WishlistService.java:34-44 | a cache hit returns the stored page whatever page and size were asked; a miss returns the uncached listing and caches it only on success; a result is never empty, holds only the user's rows, and equals the table's current page for its own page and size; the table is not touched |
| WishlistService.WishlistService.AddToWishlist | WishList/src/main/java/com/ecommerce/WishList/service/WishlistService.java:46-80 | errors in the order user, product, stock, duplicate; success exactly when all four pass; a failure changes nothing; a success appends exactly one new row built from the fetched user and product, returns it, adds it to the user's listing, makes the pair exist, evicts the user's cached listing and keeps "one row per pair" |
| WishlistService.WishlistService.RemoveFromWishlist | WishList/src/main/java/com/ecommerce/WishList/service/WishlistService.java:84-96 | fails with WishlistNotFound exactly when no row has the pair, and then changes nothing; otherwise deletes exactly the found row, keeps all others, leaves the pair absent (so a repeat fails), and evicts the user's cached listing |
| WishlistService.NewTestService | WishList/src/test/java/com/ecommerce/WishList/service/WishlistServiceTest.java:44-62 | a fixture for the client scenarios: user 1 and product 1 with stock 10 as the tests set up, plus product 2 with stock 0 standing for the out-of-stock case, an empty table and an empty cache |

## Findings

| source | as written | input that shows it | evidently intended | confidence | as-written member | corrected member |
|---|---|---|---|---|---|---|
| WishList/src/main/java/com/ecommerce/WishList/service/WishlistService.java:46 | `addToWishlist` evicts the key `#userId + '-*'`. That key is a String, but listings are stored under the Integer `#userId`, so nothing is evicted. | List user 1 with page 0, size 10 while the user has one row. Add an in-stock product not yet in the user's list. Listing again returns the cached page, still with total 1 and without the new row. | A successful add removes the user's cached listing. | high; not executed | ListingCache.AsWrittenEvictionKeepsStalePage | ListingCache.EvictKeepsFresh |
| WishList/src/main/java/com/ecommerce/WishList/service/WishlistService.java:84 | `removeFromWishlist` evicts the same String key, so nothing is evicted. | List user 1 while the user has one row, then remove that row. Listing again still returns the page with the removed row. | A successful remove removes the user's cached listing. | high; not executed | ListingCache.AsWrittenEvictionKeepsStalePageOnDelete | ListingCache.EvictKeepsFresh |

## Left out

- Logging calls: they have no effect on behaviour.
- Exception messages: each error is a bare constructor. The message text is left out.
- Product price: it is a floating-point field that this service never reads.
- The user and product stores are fixed for the life of a service object. Changes made to them by other components are not modelled.
- Primary-key generation: it is a counter (`nextId`) standing in for the database's generated ids.
- `PageRequest.of` argument checks: the model requires `page >= 0` and `size > 0` instead of modelling those errors. A null `userId` is not modelled.
- Page metadata beyond page number, page size and total count, e.g. total pages, is left out.
- Order within a page: the table order is storage order. `findByUserId` applies no sort.
- Concurrency: the race between the duplicate check and the save, the database's unique constraint, and thread safety of the cache are left out. The model is sequential.
- Entity references: they are foreign-key ids. Lazy loading and the rest of the ORM are left out.
- HTTP routing in WishlistController.java, the exception-to-status table in GlobalException.java, and application bootstrap with cache-manager wiring in WishListApplication.java are left out.
