/**
 * The wishlist table and the queries the service issues against it. The table
 * is a sequence of rows in storage order; `findByUserId` has no sort, so that
 * order is the only order a page has.
 */
module WishlistRepository {
  import opened WishlistTypes

  predicate Matches(e: Entry, userId: int, productId: int)
  {
    e.userId == userId && e.productId == productId
  }

  /** At most one row per (user, product) pair. */
  predicate Unique(rows: seq<Entry>)
  {
    forall i, j :: 0 <= i < j < |rows| ==> !Matches(rows[j], rows[i].userId, rows[i].productId)
  }

  /** Primary keys are distinct. */
  predicate DistinctIds(rows: seq<Entry>)
  {
    forall i, j :: 0 <= i < j < |rows| ==> rows[i].id != rows[j].id
  }

  /** Every primary key is below the next one the generator hands out. */
  predicate IdsBelow(rows: seq<Entry>, next: int)
  {
    forall i :: 0 <= i < |rows| ==> rows[i].id < next
  }

  /** `existsByUserAndProduct`. */
  predicate ExistsByUserAndProduct(rows: seq<Entry>, userId: int, productId: int)
  {
    exists i :: 0 <= i < |rows| && Matches(rows[i], userId, productId)
  }

  /** The rows of one user, in storage order (the unpaged `findByUserId`). */
  function ByUser(rows: seq<Entry>, userId: int): (r: seq<Entry>)
    decreases |rows|
  {
    if rows == [] then []
    else (if rows[0].userId == userId then [rows[0]] else []) + ByUser(rows[1..], userId)
  }

  /** Position of the first row for (userId, productId), if any. */
  function FindIndex(rows: seq<Entry>, userId: int, productId: int): (r: Option<nat>)
    ensures r.Some? ==> r.value < |rows| && Matches(rows[r.value], userId, productId)
    ensures r.Some? ==> forall j :: 0 <= j < r.value ==> !Matches(rows[j], userId, productId)
    ensures r.None? <==> !ExistsByUserAndProduct(rows, userId, productId)
    decreases |rows|
  {
    if rows == [] then None
    else if Matches(rows[0], userId, productId) then Some(0)
    else match FindIndex(rows[1..], userId, productId)
      case None => None
      case Some(i) => Some(i + 1)
  }

  /** `findByUserIdAndProductId`. */
  function FindByUserIdAndProductId(rows: seq<Entry>, userId: int, productId: int): (r: Option<Entry>)
    ensures r.None? <==> !ExistsByUserAndProduct(rows, userId, productId)
    ensures r.Some? ==> r.value in rows && Matches(r.value, userId, productId)
  {
    match FindIndex(rows, userId, productId)
    case None => None
    case Some(i) => Some(rows[i])
  }

  /** The page'th block of `size` elements of `s`; empty past the end. */
  function Slice<T>(s: seq<T>, page: nat, size: nat): (r: seq<T>)
    requires size > 0
    ensures |r| <= size
    ensures r == [] <==> page * size >= |s|
    ensures forall i :: 0 <= i < |r| ==> page * size + i < |s| && r[i] == s[page * size + i]
    ensures page * size + size <= |s| ==> |r| == size
    ensures page * size < |s| < page * size + size ==> |r| == |s| - page * size
  {
    var start := page * size;
    if start >= |s| then []
    else if start + size <= |s| then s[start..start + size]
    else s[start..]
  }

  /** `findByUserId(userId, PageRequest.of(page, size))`. */
  function FindByUserId(rows: seq<Entry>, userId: int, page: nat, size: nat): (r: ListingPage)
    requires size > 0
    ensures r.number == page && r.size == size
    ensures r.total == |ByUser(rows, userId)|
    ensures forall e :: e in r.content ==> e in rows && e.userId == userId
    ensures r.content == Slice(ByUser(rows, userId), page, size)
  {
    var mine := ByUser(rows, userId);
    ByUserMembers(rows, userId);
    ListingPage(Slice(mine, page, size), page, size, |mine|)
  }

  /** `save` of a new entity: the row is appended to the table. */
  function Save(rows: seq<Entry>, e: Entry): (r: seq<Entry>)
    ensures |r| == |rows| + 1 && r[..|rows|] == rows && r[|rows|] == e
    ensures multiset(r) == multiset(rows) + multiset{e}
  {
    rows + [e]
  }

  /** `delete(entity)`: every row with the entity's primary key goes. */
  function DeleteById(rows: seq<Entry>, id: int): (r: seq<Entry>)
    decreases |rows|
  {
    if rows == [] then []
    else (if rows[0].id == id then [] else [rows[0]]) + DeleteById(rows[1..], id)
  }

  /** A user's rows are exactly the table rows with that user id. */
  lemma {:induction false} ByUserMembers(rows: seq<Entry>, userId: int)
    ensures forall e :: e in ByUser(rows, userId) <==> e in rows && e.userId == userId
    decreases |rows|
  {
    if rows != [] {
      ByUserMembers(rows[1..], userId);
      assert rows == [rows[0]] + rows[1..];
    }
  }

  /** Deleting by key removes exactly the rows with that key. */
  lemma {:induction false} DeleteByIdMembers(rows: seq<Entry>, id: int)
    ensures forall e :: e in DeleteById(rows, id) <==> e in rows && e.id != id
    decreases |rows|
  {
    if rows != [] {
      DeleteByIdMembers(rows[1..], id);
      assert rows == [rows[0]] + rows[1..];
    }
  }

  lemma {:induction false} ByUserConcat(a: seq<Entry>, b: seq<Entry>, userId: int)
    ensures ByUser(a + b, userId) == ByUser(a, userId) + ByUser(b, userId)
    decreases |a|
  {
    if a == [] {
      assert a + b == b;
    } else {
      var head := if a[0].userId == userId then [a[0]] else [];
      assert (a + b)[0] == a[0];
      assert (a + b)[1..] == a[1..] + b;
      ByUserConcat(a[1..], b, userId);
      calc {
        ByUser(a + b, userId);
        head + ByUser(a[1..] + b, userId);
        head + (ByUser(a[1..], userId) + ByUser(b, userId));
        (head + ByUser(a[1..], userId)) + ByUser(b, userId);
        ByUser(a, userId) + ByUser(b, userId);
      }
    }
  }

  /** Appending a row adds it to its user's rows and leaves every other user's rows alone. */
  lemma SaveByUser(rows: seq<Entry>, e: Entry, userId: int)
    ensures ByUser(Save(rows, e), userId) == ByUser(rows, userId) + (if e.userId == userId then [e] else [])
  {
    ByUserConcat(rows, [e], userId);
    assert ByUser([e], userId) == (if e.userId == userId then [e] else []) + ByUser([], userId);
  }

  /** The rows of one user, split around the row at `i`. */
  lemma RemoveAtByUser(rows: seq<Entry>, i: nat, userId: int)
    requires i < |rows|
    ensures ByUser(rows[..i] + rows[i + 1..], userId) == ByUser(rows[..i], userId) + ByUser(rows[i + 1..], userId)
    ensures ByUser(rows, userId) ==
            ByUser(rows[..i], userId) + (if rows[i].userId == userId then [rows[i]] else []) + ByUser(rows[i + 1..], userId)
    ensures |ByUser(rows[..i] + rows[i + 1..], userId)| + (if rows[i].userId == userId then 1 else 0) ==
            |ByUser(rows, userId)|
    ensures rows[i].userId != userId ==> ByUser(rows[..i] + rows[i + 1..], userId) == ByUser(rows, userId)
  {
    assert rows == rows[..i] + ([rows[i]] + rows[i + 1..]);
    ByUserConcat(rows[..i], [rows[i]] + rows[i + 1..], userId);
    ByUserConcat([rows[i]], rows[i + 1..], userId);
    ByUserConcat(rows[..i], rows[i + 1..], userId);
    assert ByUser([rows[i]], userId) == (if rows[i].userId == userId then [rows[i]] else []) + ByUser([], userId);
  }

  lemma {:induction false} DeleteAbsentId(rows: seq<Entry>, id: int)
    requires forall i :: 0 <= i < |rows| ==> rows[i].id != id
    ensures DeleteById(rows, id) == rows
    decreases |rows|
  {
    if rows != [] {
      DeleteAbsentId(rows[1..], id);
      assert rows == [rows[0]] + rows[1..];
    }
  }

  /** When no other row shares row `i`'s key, deleting by that key removes exactly row `i`. */
  lemma {:induction false} DeleteByIdAt(rows: seq<Entry>, i: nat)
    requires i < |rows|
    requires forall j :: 0 <= j < |rows| && j != i ==> rows[j].id != rows[i].id
    ensures DeleteById(rows, rows[i].id) == rows[..i] + rows[i + 1..]
    decreases |rows|
  {
    var id := rows[i].id;
    var tail := rows[1..];
    if i == 0 {
      assert forall j :: 0 <= j < |tail| ==> tail[j] == rows[j + 1];
      DeleteAbsentId(tail, id);
    } else {
      assert rows[0].id != id;
      assert tail[i - 1] == rows[i];
      forall j | 0 <= j < |tail| && j != i - 1 ensures tail[j].id != id {
        assert tail[j] == rows[j + 1];
      }
      DeleteByIdAt(tail, i - 1);
      calc {
        DeleteById(rows, id);
        [rows[0]] + DeleteById(tail, id);
        [rows[0]] + (tail[..i - 1] + tail[i..]);
        { assert tail[..i - 1] == rows[1..i] && tail[i..] == rows[i + 1..]; }
        [rows[0]] + (rows[1..i] + rows[i + 1..]);
        { assert rows[..i] == [rows[0]] + rows[1..i]; }
        rows[..i] + rows[i + 1..];
      }
    }
  }

  /** Removing a row keeps the table's invariants. */
  lemma RemoveAtKeepsInvariants(rows: seq<Entry>, i: nat, next: int)
    requires Unique(rows) && DistinctIds(rows) && IdsBelow(rows, next) && i < |rows|
    ensures var r := rows[..i] + rows[i + 1..];
      Unique(r) && DistinctIds(r) && IdsBelow(r, next)
  {
  }

  /** Appending a row with a fresh key for a pair not yet present keeps the table's invariants. */
  lemma SaveKeepsInvariants(rows: seq<Entry>, e: Entry, next: int)
    requires Unique(rows) && DistinctIds(rows) && IdsBelow(rows, next)
    requires !ExistsByUserAndProduct(rows, e.userId, e.productId) && e.id == next
    ensures var r := Save(rows, e);
      Unique(r) && DistinctIds(r) && IdsBelow(r, next + 1)
  {
  }

  /** After a save, the pair it stored is found. */
  lemma SaveThenExists(rows: seq<Entry>, e: Entry)
    ensures ExistsByUserAndProduct(Save(rows, e), e.userId, e.productId)
  {
  }

  /**
   * Deleting the row found for a pair removes exactly that row, keeps the
   * table's invariants, leaves no row for the pair, and changes no other
   * user's rows.
   */
  lemma DeleteFound(rows: seq<Entry>, userId: int, productId: int, gone: Entry, next: int)
    requires Unique(rows) && DistinctIds(rows) && IdsBelow(rows, next)
    requires FindByUserIdAndProductId(rows, userId, productId) == Some(gone)
    ensures Unique(DeleteById(rows, gone.id)) && DistinctIds(DeleteById(rows, gone.id))
    ensures IdsBelow(DeleteById(rows, gone.id), next)
    ensures |DeleteById(rows, gone.id)| == |rows| - 1
    ensures forall e :: e in DeleteById(rows, gone.id) <==> e in rows && e != gone
    ensures !ExistsByUserAndProduct(DeleteById(rows, gone.id), userId, productId)
    ensures |ByUser(DeleteById(rows, gone.id), userId)| + 1 == |ByUser(rows, userId)|
    ensures forall v :: v != userId ==> ByUser(DeleteById(rows, gone.id), v) == ByUser(rows, v)
  {
    var i := FindIndex(rows, userId, productId).value;
    assert gone == rows[i];
    DeleteByIdAt(rows, i);
    RemoveAtKeepsInvariants(rows, i, next);
    DeleteByIdMembers(rows, gone.id);
    forall e | e in rows && e != gone ensures e.id != gone.id {
      var a :| 0 <= a < |rows| && rows[a] == e;
      assert a != i;
    }
    forall v ensures |ByUser(DeleteById(rows, gone.id), v)| + (if gone.userId == v then 1 else 0) == |ByUser(rows, v)|
      && (gone.userId != v ==> ByUser(DeleteById(rows, gone.id), v) == ByUser(rows, v))
    {
      RemoveAtByUser(rows, i, v);
    }
  }
}
