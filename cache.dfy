/**
 * The "wishlistCache" listing cache. Its keys are whatever the cache
 * annotations compute: the listing stores under the Integer `#userId`, the two
 * mutations evict the String `#userId + '-*'`. Both kinds of key are kept so
 * the mismatch between them is visible.
 */
module ListingCache {
  import opened WishlistTypes
  import opened WishlistRepository

  datatype CacheKey = IntKey(id: int) | StrKey(text: string)

  type Cache = map<CacheKey, ListingPage>

  /** The number a string of decimal digits denotes, most significant digit first. */
  ghost function DigitsValue(s: string): (v: int)
    decreases |s|
  {
    if s == [] then 0 else DigitsValue(s[..|s| - 1]) * 10 + (s[|s| - 1] as int - '0' as int)
  }

  function Digits(n: nat): (r: string)
    ensures |r| > 0 && forall i :: 0 <= i < |r| ==> '0' <= r[i] <= '9'
    ensures r[0] == '0' ==> n == 0
    decreases n
  {
    if n < 10 then ["0123456789"[n]] else Digits(n / 10) + ["0123456789"[n % 10]]
  }

  /** The digits of `n` denote `n`. */
  lemma {:induction false} DigitsDenote(n: nat)
    ensures DigitsValue(Digits(n)) == n
    decreases n
  {
    var d := n % 10;
    assert "0123456789"[d] as int - '0' as int == d;
    if n >= 10 {
      DigitsDenote(n / 10);
      var r := Digits(n);
      assert r[..|r| - 1] == Digits(n / 10);
    } else {
      var r := Digits(n);
      assert r[..|r| - 1] == [];
    }
  }

  /** Java's decimal rendering of an int, as string concatenation produces it. */
  function DecimalString(n: int): (r: string)
    ensures |r| > 0
    ensures r[0] == '-' <==> n < 0
    ensures |r| > (if n < 0 then 1 else 0)
    ensures forall i :: (if n < 0 then 1 else 0) <= i < |r| ==> '0' <= r[i] <= '9'
    ensures r[if n < 0 then 1 else 0] == '0' ==> n == 0
    ensures n >= 0 ==> DigitsValue(r) == n
    ensures n < 0 ==> DigitsValue(r[1..]) == -n
  {
    DigitsDenote(if n < 0 then -n else n);
    var r := if n < 0 then "-" + Digits(-n) else Digits(n);
    assert n < 0 ==> r[1..] == Digits(-n);
    r
  }

  /** The key the listing is stored under (`key = "#userId"`): the Integer user id itself. */
  function ListingKey(userId: int): (k: CacheKey)
    ensures k.IntKey? && k.id == userId
  {
    IntKey(userId)
  }

  /** Distinct users never share a listing key, and page and size never enter it. */
  lemma ListingKeysDistinct(u: int, v: int)
    ensures ListingKey(u) == ListingKey(v) <==> u == v
  {
  }

  /** The key the mutations evict, as the annotations compute it. */
  function EvictionKeyAsWritten(userId: int): (k: CacheKey)
    ensures k.StrKey? && k.text == DecimalString(userId) + "-*"
    ensures forall v :: k != ListingKey(v)
  {
    StrKey(DecimalString(userId) + "-*")
  }

  /** The eviction as written: remove the String key, which no listing ever stored. */
  function EvictAsWritten(cache: Cache, userId: int): (r: Cache)
    ensures forall k :: k in cache && k.IntKey? ==> k in r && r[k] == cache[k]
    ensures (forall k | k in cache :: k.IntKey?) ==> r == cache
  {
    cache - {EvictionKeyAsWritten(userId)}
  }

  /** The eviction the annotations intend: drop the user's cached listing, keep every other. */
  function Evict(cache: Cache, userId: int): (r: Cache)
    ensures ListingKey(userId) !in r
    ensures forall k :: k in r <==> k in cache && k != ListingKey(userId)
    ensures forall k :: k in r ==> r[k] == cache[k]
  {
    cache - {ListingKey(userId)}
  }

  /**
   * Every cached listing is keyed by a user id, is non-empty, and is exactly the
   * page the table would now give for the page and size it was filled with.
   */
  predicate CacheFresh(cache: Cache, rows: seq<Entry>)
  {
    forall k | k in cache ::
      k.IntKey? && cache[k].size > 0 && cache[k].content != [] &&
      cache[k] == FindByUserId(rows, k.id, cache[k].number, cache[k].size)
  }

  /** Evicting a user's listing keeps the cache fresh for any change confined to that user's rows. */
  lemma EvictKeepsFresh(cache: Cache, rows: seq<Entry>, rows': seq<Entry>, userId: int)
    requires CacheFresh(cache, rows)
    requires forall v :: v != userId ==> ByUser(rows', v) == ByUser(rows, v)
    ensures CacheFresh(Evict(cache, userId), rows')
  {
  }

  /**
   * With the eviction as written, a listing filled from the table before a
   * successful save survives it and no longer matches the table: its total is
   * one short, so the cache is not fresh.
   */
  lemma AsWrittenEvictionKeepsStalePage(cache: Cache, rows: seq<Entry>, e: Entry)
    requires ListingKey(e.userId) in cache
    requires cache[ListingKey(e.userId)].total == |ByUser(rows, e.userId)|
    ensures ListingKey(e.userId) in EvictAsWritten(cache, e.userId)
    ensures EvictAsWritten(cache, e.userId)[ListingKey(e.userId)] == cache[ListingKey(e.userId)]
    ensures cache[ListingKey(e.userId)].total + 1 == |ByUser(Save(rows, e), e.userId)|
    ensures !CacheFresh(EvictAsWritten(cache, e.userId), Save(rows, e))
  {
    SaveByUser(rows, e, e.userId);
  }

  /** Likewise for a delete: the cached listing survives and its total is one too many. */
  lemma AsWrittenEvictionKeepsStalePageOnDelete(cache: Cache, rows: seq<Entry>, i: nat)
    requires i < |rows| && ListingKey(rows[i].userId) in cache
    requires cache[ListingKey(rows[i].userId)].total == |ByUser(rows, rows[i].userId)|
    ensures ListingKey(rows[i].userId) in EvictAsWritten(cache, rows[i].userId)
    ensures EvictAsWritten(cache, rows[i].userId)[ListingKey(rows[i].userId)] == cache[ListingKey(rows[i].userId)]
    ensures cache[ListingKey(rows[i].userId)].total == |ByUser(rows[..i] + rows[i + 1..], rows[i].userId)| + 1
    ensures !CacheFresh(EvictAsWritten(cache, rows[i].userId), rows[..i] + rows[i + 1..])
  {
    RemoveAtByUser(rows, i, rows[i].userId);
  }
}
