/** The `items` table row and the constraints its columns impose on writes.
    Prices are whole numbers of cents; timestamps are ticks of a logical clock. */
module ItemModel {
  import opened Types

  /** One row of `items`. `id`, `createdAt` and `updatedAt` are assigned by the store. */
  datatype Item = Item(id: int, name: string, price: int, createdAt: nat, updatedAt: nat)

  /** What every stored row satisfies: an autoincrement id (starting at 1), the
      `min: 0` check on price, and timestamps the store keeps in order. */
  predicate ValidRow(it: Item)
  {
    it.id >= 1 && it.price >= 0 && it.createdAt <= it.updatedAt
  }

  /** The column checks an INSERT passes: `name` and `price` are NOT NULL and
      `price` is at least 0. */
  predicate AcceptsInsert(name: JsonField<string>, price: JsonField<int>)
  {
    name.Present? && price.Present? && price.value >= 0
  }

  /** The column checks an instance update passes. An absent attribute is
      dropped from the write and keeps its stored value; an explicit null
      violates NOT NULL; a given price must be at least 0. */
  predicate AcceptsUpdate(name: JsonField<string>, price: JsonField<int>)
  {
    !name.Null? && !price.Null? && (price.Present? ==> price.value >= 0)
  }

  /** The value a column holds after an update that was given `f`. */
  function Assigned<T>(f: JsonField<T>, stored: T): T
    requires !f.Null?
  {
    if f.Present? then f.value else stored
  }
}
