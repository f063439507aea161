/**
 * The wishlist service: it validates a request against the user and product
 * stores, keeps at most one wishlist row per (user, product), saves and
 * deletes rows, and serves per-user listings through the listing cache.
 * Thrown exceptions become `Err` results.
 */
module WishlistService {
  import opened WishlistTypes
  import opened WishlistRepository
  import opened ListingCache

  /** The uncached listing: the page of the user's rows, an empty page being an error. */
  function ListWishlist(rows: seq<Entry>, userId: int, page: nat, size: nat): (r: Result<ListingPage>)
    requires size > 0
    ensures r.Ok? <==> page * size < |ByUser(rows, userId)|
    ensures r.Err? ==> r.error == WishlistNotFound
    ensures r.Ok? ==> r.value == FindByUserId(rows, userId, page, size) && r.value.content != []
  {
    var p := FindByUserId(rows, userId, page, size);
    if p.content == [] then Err(WishlistNotFound) else Ok(p)
  }

  /** Each store maps a key to the record with that id. */
  predicate StoresKeyed(users: map<int, User>, products: map<int, Product>)
  {
    (forall k | k in users :: users[k].id == k) &&
    (forall k | k in products :: products[k].id == k)
  }

  class WishlistService {
    /** The user and product stores, owned elsewhere; this service only reads them. */
    const users: map<int, User>
    const products: map<int, Product>
    /** The wishlist table, and the next primary key the table will assign. */
    var rows: seq<Entry>
    var nextId: int
    /** The listing cache. */
    var cache: Cache

    ghost predicate Valid()
      reads this
    {
      StoresKeyed(users, products) &&
      Unique(rows) && DistinctIds(rows) && IdsBelow(rows, nextId) &&
      CacheFresh(cache, rows)
    }

    constructor (users: map<int, User>, products: map<int, Product>, rows: seq<Entry>, nextId: int)
      requires StoresKeyed(users, products)
      requires Unique(rows) && DistinctIds(rows) && IdsBelow(rows, nextId)
      ensures Valid()
      ensures this.users == users && this.products == products
      ensures this.rows == rows && this.nextId == nextId && cache == map[]
    {
      this.users := users;
      this.products := products;
      this.rows := rows;
      this.nextId := nextId;
      cache := map[];
    }

    /**
     * `getWishlistItems`: a cached listing for the user is returned whatever
     * page and size are asked for; otherwise the page is read from the table
     * and cached only when it is not empty.
     */
    method GetWishlistItems(userId: int, page: nat, size: nat) returns (r: Result<ListingPage>)
      requires Valid() && size > 0
      modifies this`cache
      ensures Valid()
      ensures ListingKey(userId) in old(cache) ==> r == Ok(old(cache)[ListingKey(userId)]) && cache == old(cache)
      ensures ListingKey(userId) !in old(cache) ==> r == ListWishlist(rows, userId, page, size)
      ensures ListingKey(userId) !in old(cache) ==>
                cache == if r.Ok? then old(cache)[ListingKey(userId) := r.value] else old(cache)
      ensures r.Err? ==> r.error == WishlistNotFound && cache == old(cache)
      ensures r.Ok? ==> r.value.content != [] && forall e :: e in r.value.content ==> e in rows && e.userId == userId
      ensures r.Ok? ==> r.value.size > 0 && r.value == FindByUserId(rows, userId, r.value.number, r.value.size)
    {
      var key := ListingKey(userId);
      if key in cache {
        return Ok(cache[key]);
      }
      var listing := FindByUserId(rows, userId, page, size);
      if listing.content == [] {
        return Err(WishlistNotFound);
      }
      cache := cache[key := listing];
      r := Ok(listing);
    }

    /**
     * `addToWishlist`: user, product, stock and duplicate checks in that order,
     * the first failing one deciding the error; only when all pass is a row
     * saved and the user's cached listing evicted.
     */
    method AddToWishlist(userId: int, productId: int) returns (r: Result<Entry>)
      requires Valid()
      modifies this`rows, this`nextId, this`cache
      ensures Valid()
      ensures userId !in users ==> r == Err(UserNotFound)
      ensures userId in users && productId !in products ==> r == Err(ProductNotFound)
      ensures userId in users && productId in products && products[productId].stock <= 0 ==>
                r == Err(ProductOutOfStock)
      ensures (userId in users && productId in products && products[productId].stock > 0 &&
               ExistsByUserAndProduct(old(rows), userId, productId)) ==> r == Err(DuplicateWishlistItem)
      ensures r.Ok? <==> userId in users && productId in products && products[productId].stock > 0 &&
                         !ExistsByUserAndProduct(old(rows), userId, productId)
      ensures r.Err? ==> rows == old(rows) && nextId == old(nextId) && cache == old(cache)
      ensures r.Ok? ==> r.value == Entry(old(nextId), users[userId].id, products[productId].id)
      ensures r.Ok? ==> r.value.userId == userId && r.value.productId == productId
      ensures r.Ok? ==> rows == Save(old(rows), r.value) && nextId == old(nextId) + 1
      ensures r.Ok? ==> cache == Evict(old(cache), userId)
      ensures r.Ok? ==> ExistsByUserAndProduct(rows, userId, productId)
      ensures r.Ok? ==> ByUser(rows, userId) == ByUser(old(rows), userId) + [r.value]
    {
      if userId !in users {
        return Err(UserNotFound);
      }
      var user := users[userId];
      if productId !in products {
        return Err(ProductNotFound);
      }
      var product := products[productId];
      if product.stock <= 0 {
        return Err(ProductOutOfStock);
      }
      if ExistsByUserAndProduct(rows, user.id, product.id) {
        return Err(DuplicateWishlistItem);
      }
      var saved := Entry(nextId, user.id, product.id);
      SaveKeepsInvariants(rows, saved, nextId);
      SaveThenExists(rows, saved);
      forall v ensures ByUser(Save(rows, saved), v) == ByUser(rows, v) + (if saved.userId == v then [saved] else []) {
        SaveByUser(rows, saved, v);
      }
      EvictKeepsFresh(cache, rows, Save(rows, saved), userId);
      rows := Save(rows, saved);
      nextId := nextId + 1;
      cache := Evict(cache, userId);
      r := Ok(saved);
    }

    /**
     * `removeFromWishlist`: the row for (userId, productId) is deleted and the
     * user's cached listing evicted, or the call fails and changes nothing.
     */
    method RemoveFromWishlist(userId: int, productId: int) returns (r: Result<()>)
      requires Valid()
      modifies this`rows, this`cache
      ensures Valid()
      ensures r.Err? <==> !ExistsByUserAndProduct(old(rows), userId, productId)
      ensures r.Err? ==> r.error == WishlistNotFound && rows == old(rows) && cache == old(cache)
      ensures r.Ok? ==> var gone := FindByUserIdAndProductId(old(rows), userId, productId).value;
                rows == DeleteById(old(rows), gone.id) &&
                |rows| == |old(rows)| - 1 &&
                (forall e :: e in rows <==> e in old(rows) && e != gone)
      ensures r.Ok? ==> cache == Evict(old(cache), userId)
      ensures r.Ok? ==> !ExistsByUserAndProduct(rows, userId, productId)
      ensures r.Ok? ==> |ByUser(rows, userId)| + 1 == |ByUser(old(rows), userId)|
    {
      var found := FindByUserIdAndProductId(rows, userId, productId);
      if found.None? {
        return Err(WishlistNotFound);
      }
      var gone := found.value;
      DeleteFound(rows, userId, productId, gone, nextId);
      EvictKeepsFresh(cache, rows, DeleteById(rows, gone.id), userId);
      rows := DeleteById(rows, gone.id);
      cache := Evict(cache, userId);
      r := Ok(());
    }
  }

  /** A service over user 1, product 1 with stock 10 and product 2 with stock 0, an empty table and an empty cache. */
  method NewTestService() returns (s: WishlistService)
    ensures fresh(s) && s.Valid()
    ensures s.users.Keys == {1} && s.products.Keys == {1, 2}
    ensures s.products[1].stock == 10 && s.products[2].stock == 0
    ensures s.rows == [] && s.cache == map[]
  {
    var buyer := User(1, "First", "Last", "user1@example.com");
    var phone := Product(1, "Smartphone", "Latest model", 10);
    var tablet := Product(2, "Tablet", "Old model", 0);
    s := new WishlistService(map[1 := buyer], map[1 := phone, 2 := tablet], [], 1);
  }

  /** Add succeeds, a second add is a duplicate, remove succeeds, a second remove finds nothing. */
  method ScenarioAddRemove()
  {
    var s := NewTestService();
    var added := s.AddToWishlist(1, 1);
    assert added.Ok? && added.value.userId == 1 && added.value.productId == 1;
    var again := s.AddToWishlist(1, 1);
    assert again == Err(DuplicateWishlistItem);
    assert ExistsByUserAndProduct(s.rows, 1, 1);
    var removed := s.RemoveFromWishlist(1, 1);
    assert removed.Ok?;
    var removedAgain := s.RemoveFromWishlist(1, 1);
    assert removedAgain == Err(WishlistNotFound);
  }

  /** Each failed validation reports its own error and saves nothing. */
  method ScenarioRejected()
  {
    var s := NewTestService();
    var noStock := s.AddToWishlist(1, 2);
    assert noStock == Err(ProductOutOfStock);
    var noUser := s.AddToWishlist(2, 7);
    assert noUser == Err(UserNotFound);
    var noProduct := s.AddToWishlist(1, 7);
    assert noProduct == Err(ProductNotFound);
    assert s.rows == [];
  }

  /** An empty listing is an error and is not cached; after an add the listing has the new row. */
  method ScenarioListing()
  {
    var s := NewTestService();
    var listed := s.GetWishlistItems(1, 0, 10);
    assert listed == Err(WishlistNotFound) && s.cache == map[];
    var added := s.AddToWishlist(1, 1);
    assert added.Ok?;
    listed := s.GetWishlistItems(1, 0, 10);
    assert ByUser(s.rows, 1) == [added.value];
    assert listed.Ok? && listed.value.total == 1 && listed.value.content == [added.value];
  }
}
