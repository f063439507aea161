/** The entities the wishlist service reads and writes, and its typed errors. */
module WishlistTypes {

  /** A user record of the user store; this core only reads it. */
  datatype User = User(id: int, firstName: string, lastName: string, email: string)

  /** A product record of the product store; `stock` is read, never written. */
  datatype Product = Product(id: int, name: string, description: string, stock: int)

  /** A wishlist row: its primary key and the keys of the user and product it references. */
  datatype Entry = Entry(id: int, userId: int, productId: int)

  /** One page of a user's entries, with the page request and the user's total count. */
  datatype ListingPage = ListingPage(content: seq<Entry>, number: nat, size: nat, total: nat)

  /** The service's exceptions, one constructor per exception class. */
  datatype Error =
    | UserNotFound
    | ProductNotFound
    | ProductOutOfStock
    | DuplicateWishlistItem
    | WishlistNotFound

  datatype Option<T> = None | Some(value: T)

  /** A call either returns a value or fails with the error it would have thrown. */
  datatype Result<T> = Ok(value: T) | Err(error: Error)
}
