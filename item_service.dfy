/** `ItemService` over an in-memory `items` table.

    The table is a map from id to row plus two counters: `nextId`, the next
    autoincrement key, and `clock`, a logical clock read for `createdAt` and
    `updatedAt`. Each service operation is first written as a function from the
    table before the call to the table after it and the outcome (`CreateStep`,
    `UpdateStep`, `DeleteStep`); the reads `FindAll` and `FindById` are plain
    functions. Class `ItemTable` holds the state and changes it in place through
    methods proved equal to the step functions. */
module ItemService {
  import opened Types
  import opened ItemModel
  import opened Pagination

  const ItemNotFound := "Item not found"
  const NameAndPriceRequired := "Name and price are required"
  const PriceCannotBeNegative := "Price cannot be negative"
  const ErrorGettingItems := "Error getting items"
  const ErrorGettingItem := "Error getting item"
  const ErrorCreatingItem := "Error creating item"
  const ErrorUpdatingItem := "Error updating item"
  const ErrorDeletingItem := "Error deleting item"

  /** Which store call of an operation fails (a lost connection, say), if any. */
  datatype StoreFault = NoFault | ReadFault | WriteFault

  /** The table: rows by id, the next autoincrement id, and the logical clock. */
  datatype TableState = TableState(rows: map<int, Item>, nextId: nat, clock: nat)

  /** The table after an operation and what the operation returned. */
  datatype Step<+T> = Step(state: TableState, outcome: Outcome<T>)

  /** The response of `findAll`. */
  datatype ListPage = ListPage(items: seq<Item>, total: nat, currentPage: int, totalPages: nat, itemsPerPage: int)

  /** The table's invariant: each row is stored under its own id, ids lie below
      `nextId` (so a new id is fresh and none is reused), every row satisfies
      the column constraints, no timestamp is ahead of the clock, and a row with
      a larger id was created later. */
  ghost predicate WellFormed(s: TableState)
  {
    s.nextId >= 1 &&
    (forall k :: k in s.rows ==>
      k < s.nextId && s.rows[k].id == k && ValidRow(s.rows[k]) && s.rows[k].updatedAt < s.clock) &&
    (forall i, j :: i in s.rows && j in s.rows && i < j ==> s.rows[i].createdAt < s.rows[j].createdAt)
  }

  /** An empty table, as `sync({ force: true })` leaves it. */
  function EmptyTable(): (s: TableState)
    ensures WellFormed(s) && s.rows == map[]
  {
    TableState(map[], 1, 0)
  }

  // ---------------------------------------------------------------- ordering

  /** The rows whose ids lie in `[0, n)`, largest id first. */
  function NewestFirst(rows: map<int, Item>, n: int): seq<Item>
    decreases n
  {
    if n <= 0 then []
    else (if n - 1 in rows then [rows[n - 1]] else []) + NewestFirst(rows, n - 1)
  }

  /** The whole table in the order `findAll` returns it: `createdAt` descending. */
  function Listing(s: TableState): seq<Item>
  {
    NewestFirst(s.rows, s.nextId)
  }

  ghost function KeysBelow(rows: map<int, Item>, n: int): set<int>
  {
    set k | k in rows && 0 <= k < n
  }

  /** Every entry of `xs` is the row stored under its own id, and that id lies in `[0, n)`. */
  ghost predicate StoredBelow(rows: map<int, Item>, xs: seq<Item>, n: int)
  {
    forall i :: 0 <= i < |xs| ==> 0 <= xs[i].id < n && xs[i].id in rows && rows[xs[i].id] == xs[i]
  }

  ghost predicate IdsDecreasing(xs: seq<Item>)
  {
    forall i, j :: 0 <= i < j < |xs| ==> xs[i].id > xs[j].id
  }

  /** Each entry of `NewestFirst(rows, n)` is a stored row under its own id in `[0, n)`. */
  lemma {:induction false} NewestFirstStored(rows: map<int, Item>, n: int)
    requires forall k :: k in rows ==> rows[k].id == k
    ensures StoredBelow(rows, NewestFirst(rows, n), n)
    decreases n
  {
    if n > 0 {
      NewestFirstStored(rows, n - 1);
      var rest := NewestFirst(rows, n - 1);
      var xs := NewestFirst(rows, n);
      if n - 1 in rows {
        assert xs == [rows[n - 1]] + rest;
        forall i | 0 <= i < |xs|
          ensures 0 <= xs[i].id < n && xs[i].id in rows && rows[xs[i].id] == xs[i]
        {
          if i > 0 { assert xs[i] == rest[i - 1]; }
        }
      } else {
        assert xs == rest;
      }
    }
  }

  /** Ids strictly decrease along `NewestFirst(rows, n)`. */
  lemma {:induction false} NewestFirstDecreasing(rows: map<int, Item>, n: int)
    requires forall k :: k in rows ==> rows[k].id == k
    ensures IdsDecreasing(NewestFirst(rows, n))
    decreases n
  {
    if n > 0 {
      NewestFirstDecreasing(rows, n - 1);
      NewestFirstStored(rows, n - 1);
      var rest := NewestFirst(rows, n - 1);
      var xs := NewestFirst(rows, n);
      if n - 1 in rows {
        assert xs == [rows[n - 1]] + rest;
        forall i, j | 0 <= i < j < |xs|
          ensures xs[i].id > xs[j].id
        {
          assert xs[j] == rest[j - 1];
          assert 0 <= j - 1 < |rest|;
          if i == 0 {
            assert xs[i] == rows[n - 1];
            assert rest[j - 1].id < n - 1;
          } else {
            assert xs[i] == rest[i - 1];
            assert rest[i - 1].id > rest[j - 1].id;
          }
        }
      } else {
        assert xs == rest;
      }
    }
  }

  /** Every row with an id in `[0, n)` appears in `NewestFirst(rows, n)`. */
  lemma {:induction false} NewestFirstComplete(rows: map<int, Item>, n: int)
    ensures forall k :: k in rows && 0 <= k < n ==> rows[k] in NewestFirst(rows, n)
    decreases n
  {
    if n > 0 {
      NewestFirstComplete(rows, n - 1);
    }
  }

  /** `NewestFirst(rows, n)` has one entry per id of `rows` in `[0, n)`. */
  lemma {:induction false} NewestFirstLength(rows: map<int, Item>, n: int)
    ensures |NewestFirst(rows, n)| == |KeysBelow(rows, n)|
    decreases n
  {
    if n <= 0 {
      assert KeysBelow(rows, n) == {};
    } else {
      NewestFirstLength(rows, n - 1);
      if n - 1 in rows {
        assert KeysBelow(rows, n) == KeysBelow(rows, n - 1) + {n - 1};
      } else {
        assert KeysBelow(rows, n) == KeysBelow(rows, n - 1);
      }
    }
  }

  /** The listing is the whole table: every row once, no other value, strictly
      newest first by `createdAt`, and as many entries as the table has rows. */
  lemma ListingIsTable(s: TableState)
    requires WellFormed(s)
    ensures |Listing(s)| == |s.rows|
    ensures forall x :: x in Listing(s) <==> x in s.rows.Values
    ensures forall i, j :: 0 <= i < j < |Listing(s)| ==> Listing(s)[i].createdAt > Listing(s)[j].createdAt
  {
    NewestFirstStored(s.rows, s.nextId);
    NewestFirstDecreasing(s.rows, s.nextId);
    NewestFirstComplete(s.rows, s.nextId);
    NewestFirstLength(s.rows, s.nextId);
    assert KeysBelow(s.rows, s.nextId) == s.rows.Keys;
    forall x | x in s.rows.Values
      ensures x in Listing(s)
    {
      var k :| k in s.rows && s.rows[k] == x;
    }
  }

  // ---------------------------------------------------------------- reads

  /** `findAll(page, limit)`: one page of the table, newest first, with the
      count of the whole table and the page arithmetic. */
  function FindAll(s: TableState, page: int, limit: int, fault: StoreFault): (r: Outcome<ListPage>)
    requires page >= 1 && limit >= 1
    ensures r.Err? <==> fault == ReadFault
    ensures r.Err? ==> r.error == Internal(ErrorGettingItems)
    ensures r.Ok? ==> r.value.currentPage == page && r.value.itemsPerPage == limit
  {
    if fault == ReadFault then Err(Internal(ErrorGettingItems))
    else
      var rows := Listing(s);
      Ok(ListPage(PageOf(rows, page, limit), |s.rows|, page, PageCount(|s.rows|, limit), limit))
  }

  /** What a successful `findAll` returns: `total` counts the whole table, not
      the page; `totalPages` is the ceiling of `total / limit`; the items are
      the rows from `offset = (page - 1) * limit` on, newest first, and there
      are `min(limit, max(0, total - offset))` of them, each a stored row. */
  lemma FindAllPage(s: TableState, page: int, limit: int, fault: StoreFault)
    requires WellFormed(s) && page >= 1 && limit >= 1 && fault != ReadFault
    ensures var r := FindAll(s, page, limit, fault);
      r.Ok? &&
      r.value.total == |s.rows| && r.value.currentPage == page && r.value.itemsPerPage == limit &&
      r.value.totalPages * limit >= r.value.total &&
      (r.value.totalPages == 0 || (r.value.totalPages - 1) * limit < r.value.total) &&
      |r.value.items| == Min(limit, Max(0, r.value.total - (page - 1) * limit)) &&
      (forall i :: 0 <= i < |r.value.items| ==> r.value.items[i] == Listing(s)[(page - 1) * limit + i]) &&
      (forall i :: 0 <= i < |r.value.items| ==> r.value.items[i] in s.rows.Values) &&
      (forall i, j :: 0 <= i < j < |r.value.items| ==> r.value.items[i].createdAt > r.value.items[j].createdAt)
  {
    ListingIsTable(s);
    var items := FindAll(s, page, limit, fault).value.items;
    var off := (page - 1) * limit;
    forall i, j | 0 <= i < j < |items|
      ensures items[i].createdAt > items[j].createdAt
    {
      assert items[i] == Listing(s)[off + i] && items[j] == Listing(s)[off + j];
    }
    forall i | 0 <= i < |items|
      ensures items[i] in s.rows.Values
    {
      assert items[i] == Listing(s)[off + i];
    }
  }

  /** Reading the pages 1 to `totalPages` in turn visits every row of the table
      exactly once, newest first; no page in that range is empty and the page
      after the last one is. */
  lemma AllPagesListTable(s: TableState, limit: int)
    requires WellFormed(s) && limit >= 1
    ensures var n := FindAll(s, 1, limit, NoFault).value.totalPages;
      Pages(Listing(s), limit, n) == Listing(s) &&
      (forall p :: 1 <= p <= n ==> FindAll(s, p, limit, NoFault).value.items != []) &&
      FindAll(s, n + 1, limit, NoFault).value.items == []
  {
    ListingIsTable(s);
    PagesCoverAll(Listing(s), limit);
  }

  /** `findById(id)`: the stored row, or the distinct "Item not found" outcome. */
  function FindById(s: TableState, id: int, fault: StoreFault): (r: Outcome<Item>)
    ensures fault == ReadFault ==> r == Err(Internal(ErrorGettingItem))
    ensures fault != ReadFault ==> (r.Ok? <==> id in s.rows)
    ensures fault != ReadFault && id !in s.rows ==> r == Err(NotFound(ItemNotFound))
    ensures r.Ok? ==> id in s.rows && r.value == s.rows[id]
  {
    if fault == ReadFault then Err(Internal(ErrorGettingItem))
    else if id !in s.rows then Err(NotFound(ItemNotFound))
    else Ok(s.rows[id])
  }

  // ---------------------------------------------------------------- create

  predicate FalsyName(name: JsonField<string>) { !name.Present? || name.value == "" }

  /** A price JavaScript treats as false: missing, null or 0. */
  predicate FalsyPrice(price: JsonField<int>) { !price.Present? || price.value == 0 }

  /** The checks `create` makes before touching the store, in their order: a
      falsy name or price first (so a price of 0 is "required"), then a
      negative price. `None` when both pass. */
  function CreateValidation(name: JsonField<string>, price: JsonField<int>): (r: Option<ServiceError>)
    ensures r == Some(Validation(NameAndPriceRequired)) <==> FalsyName(name) || FalsyPrice(price)
    ensures r == Some(Validation(PriceCannotBeNegative)) <==>
      !FalsyName(name) && !FalsyPrice(price) && price.value < 0
    ensures r == None <==> name.Present? && name != Present("") && price.Present? && price.value > 0
    ensures r.Some? ==> r.value.Validation?
  {
    if FalsyName(name) || FalsyPrice(price) then Some(Validation(NameAndPriceRequired))
    else if price.value < 0 then Some(Validation(PriceCannotBeNegative))
    else None
  }

  /** A create that passes the service's checks also passes every column check,
      so the store's `min: 0` guard never fires on this path. */
  lemma CreateValidationSufficesForStore(name: JsonField<string>, price: JsonField<int>)
    requires CreateValidation(name, price) == None
    ensures AcceptsInsert(name, price) && name.value != "" && price.value > 0
  {
  }

  /** `create(name, price)`: validate, then insert a row with the next id and the
      current clock as both timestamps. */
  function CreateStep(s: TableState, name: JsonField<string>, price: JsonField<int>, fault: StoreFault): (r: Step<Item>)
    ensures r.outcome.Err? ==> r.state == s
    ensures CreateValidation(name, price).Some? ==> r.outcome == Err(CreateValidation(name, price).value)
    ensures r.outcome.Ok? <==> CreateValidation(name, price) == None && fault != WriteFault
    ensures r.outcome.Err? && r.outcome.error.Internal? ==> r.outcome.error.message == ErrorCreatingItem
  {
    match CreateValidation(name, price)
    case Some(e) => Step(s, Err(e))
    case None =>
      if fault == WriteFault || !AcceptsInsert(name, price) then Step(s, Err(Internal(ErrorCreatingItem)))
      else
        var item := Item(s.nextId, name.value, price.value, s.clock, s.clock);
        Step(TableState(s.rows[s.nextId := item], s.nextId + 1, s.clock + 1), Ok(item))
  }

  /** A successful create adds exactly one row, under the next autoincrement id
      (which no row had) and advances the counter past it, holding the given
      name and price; every other row is untouched; the table stays well formed;
      and `findById` on the new id returns the new row. */
  lemma CreateAddsOneRow(s: TableState, name: JsonField<string>, price: JsonField<int>, fault: StoreFault)
    requires WellFormed(s)
    ensures var r := CreateStep(s, name, price, fault);
      WellFormed(r.state) &&
      (r.outcome.Ok? ==>
        var it := r.outcome.value;
        it.id == s.nextId && r.state.nextId == s.nextId + 1 &&
        it.id !in s.rows && it.name == name.value && it.price == price.value &&
        r.state.rows.Keys == s.rows.Keys + {it.id} &&
        (forall k :: k in s.rows ==> r.state.rows[k] == s.rows[k]) &&
        |r.state.rows| == |s.rows| + 1 &&
        FindById(r.state, it.id, NoFault) == Ok(it))
  {
  }

  // ---------------------------------------------------------------- update

  /** `update(id, name, price)`: look the row up, reject a negative price, then
      overwrite the name and price that were given and refresh `updatedAt`. */
  function UpdateStep(s: TableState, id: int, name: JsonField<string>, price: JsonField<int>, fault: StoreFault): (r: Step<Item>)
    ensures r.outcome.Err? ==> r.state == s
    ensures fault != ReadFault && id !in s.rows ==> r.outcome == Err(NotFound(ItemNotFound))
    ensures r.outcome.Err? && r.outcome.error.Validation? <==>
      fault != ReadFault && id in s.rows && price.Present? && price.value < 0
    ensures r.outcome.Err? && r.outcome.error.Validation? ==> r.outcome.error.message == PriceCannotBeNegative
    ensures r.outcome.Err? && r.outcome.error.Internal? ==> r.outcome.error.message == ErrorUpdatingItem
  {
    if fault == ReadFault then Step(s, Err(Internal(ErrorUpdatingItem)))
    else if id !in s.rows then Step(s, Err(NotFound(ItemNotFound)))
    else if price.Present? && price.value < 0 then Step(s, Err(Validation(PriceCannotBeNegative)))
    else if fault == WriteFault || !AcceptsUpdate(name, price) then Step(s, Err(Internal(ErrorUpdatingItem)))
    else
      var was := s.rows[id];
      var item := was.(name := Assigned(name, was.name), price := Assigned(price, was.price), updatedAt := s.clock);
      Step(TableState(s.rows[id := item], s.nextId, s.clock + 1), Ok(item))
  }

  /** A successful update changes only the name and price of row `id` (a price
      of 0 included): a field that was given is written, a field that was left
      out keeps its stored value. It keeps the row's id and `createdAt`, leaves
      every other row, the set of ids and the autoincrement counter as they
      were, keeps the table well formed, and a later `findById` returns the new
      values. */
  lemma UpdateChangesOneRow(s: TableState, id: int, name: JsonField<string>, price: JsonField<int>, fault: StoreFault)
    requires WellFormed(s)
    ensures var r := UpdateStep(s, id, name, price, fault);
      WellFormed(r.state) &&
      r.state.nextId == s.nextId &&
      (r.outcome.Ok? <==> fault == NoFault && id in s.rows && AcceptsUpdate(name, price)) &&
      (r.outcome.Ok? ==>
        var it := r.outcome.value;
        it.id == id && it.createdAt == s.rows[id].createdAt &&
        (name.Present? ==> it.name == name.value) && (price.Present? ==> it.price == price.value) &&
        (name.Absent? ==> it.name == s.rows[id].name) && (price.Absent? ==> it.price == s.rows[id].price) &&
        r.state.rows.Keys == s.rows.Keys &&
        (forall k :: k in s.rows && k != id ==> r.state.rows[k] == s.rows[k]) &&
        FindById(r.state, id, NoFault) == Ok(it))
  {
  }

  // ---------------------------------------------------------------- delete

  /** `delete(id)`: look the row up, then remove it. */
  function DeleteStep(s: TableState, id: int, fault: StoreFault): (r: Step<()>)
    ensures r.outcome.Err? ==> r.state == s
    ensures fault != ReadFault && id !in s.rows ==> r.outcome == Err(NotFound(ItemNotFound))
    ensures r.outcome.Ok? <==> fault == NoFault && id in s.rows
    ensures r.outcome.Err? && r.outcome.error.Internal? ==> r.outcome.error.message == ErrorDeletingItem
    ensures r.outcome.Err? ==> !r.outcome.error.Validation?
  {
    if fault == ReadFault then Step(s, Err(Internal(ErrorDeletingItem)))
    else if id !in s.rows then Step(s, Err(NotFound(ItemNotFound)))
    else if fault == WriteFault then Step(s, Err(Internal(ErrorDeletingItem)))
    else assert fault == NoFault; Step(TableState(s.rows - {id}, s.nextId, s.clock), Ok(()))
  }

  /** A successful delete removes exactly row `id`, keeps every other row, keeps
      the table well formed and the autoincrement counter where it was, and a
      later `findById(id)` is "Item not found". */
  lemma DeleteRemovesOneRow(s: TableState, id: int, fault: StoreFault)
    requires WellFormed(s)
    ensures var r := DeleteStep(s, id, fault);
      WellFormed(r.state) &&
      r.state.nextId == s.nextId &&
      (r.outcome.Ok? ==>
        r.state.rows.Keys == s.rows.Keys - {id} &&
        (forall k :: k in r.state.rows ==> r.state.rows[k] == s.rows[k]) &&
        |r.state.rows| == |s.rows| - 1 &&
        FindById(r.state, id, NoFault) == Err(NotFound(ItemNotFound)))
  {
  }

  // ---------------------------------------------------------------- ids

  /** One write the service performs, with what the store does on it. */
  datatype Write =
    | CreateWrite(name: JsonField<string>, price: JsonField<int>, fault: StoreFault)
    | UpdateWrite(id: int, name: JsonField<string>, price: JsonField<int>, fault: StoreFault)
    | DeleteWrite(id: int, fault: StoreFault)

  /** The table after one write, whether it succeeded or not. */
  function Apply(s: TableState, w: Write): TableState
  {
    match w
    case CreateWrite(name, price, fault) => CreateStep(s, name, price, fault).state
    case UpdateWrite(id, name, price, fault) => UpdateStep(s, id, name, price, fault).state
    case DeleteWrite(id, fault) => DeleteStep(s, id, fault).state
  }

  /** The table after a sequence of writes, applied in order. */
  function ApplyAll(s: TableState, ws: seq<Write>): TableState
    decreases |ws|
  {
    if ws == [] then s else ApplyAll(Apply(s, ws[0]), ws[1..])
  }

  /** No write gives back an id that was handed out and is no longer in the
      table: such an id stays absent and below the counter, the counter never
      moves back, and the table stays well formed. */
  lemma WriteKeepsIdFree(s: TableState, w: Write, id: int)
    requires WellFormed(s) && id !in s.rows && id < s.nextId
    ensures var t := Apply(s, w);
      WellFormed(t) && id !in t.rows && id < t.nextId && s.nextId <= t.nextId
  {
    match w
    case CreateWrite(name, price, fault) => CreateAddsOneRow(s, name, price, fault);
    case UpdateWrite(i, name, price, fault) => UpdateChangesOneRow(s, i, name, price, fault);
    case DeleteWrite(i, fault) => DeleteRemovesOneRow(s, i, fault);
  }

  /** The same through any sequence of creates, updates and deletes. */
  lemma {:induction false} WritesKeepIdFree(s: TableState, ws: seq<Write>, id: int)
    requires WellFormed(s) && id !in s.rows && id < s.nextId
    ensures var t := ApplyAll(s, ws);
      WellFormed(t) && id !in t.rows && id < t.nextId && s.nextId <= t.nextId
    decreases |ws|
  {
    if ws != [] {
      WriteKeepsIdFree(s, ws[0], id);
      WritesKeepIdFree(Apply(s, ws[0]), ws[1..], id);
    }
  }

  /** Ids are never reused: once row `id` is deleted, whatever creates, updates
      and deletes follow, `id` is absent from the table after each of them and
      no create among them returns `id`. */
  lemma DeletedIdNeverReissued(s: TableState, id: int, ws: seq<Write>)
    requires WellFormed(s) && DeleteStep(s, id, NoFault).outcome.Ok?
    ensures var d := DeleteStep(s, id, NoFault).state;
      forall k :: 0 <= k <= |ws| ==> id !in ApplyAll(d, ws[..k]).rows
    ensures var d := DeleteStep(s, id, NoFault).state;
      forall k :: 0 <= k < |ws| && ws[k].CreateWrite? ==>
        var c := CreateStep(ApplyAll(d, ws[..k]), ws[k].name, ws[k].price, ws[k].fault);
        c.outcome.Ok? ==> c.outcome.value.id != id
  {
    var d := DeleteStep(s, id, NoFault).state;
    DeleteRemovesOneRow(s, id, NoFault);
    forall k | 0 <= k <= |ws|
      ensures id !in ApplyAll(d, ws[..k]).rows
    {
      WritesKeepIdFree(d, ws[..k], id);
    }
    forall k | 0 <= k < |ws| && ws[k].CreateWrite?
      ensures var c := CreateStep(ApplyAll(d, ws[..k]), ws[k].name, ws[k].price, ws[k].fault);
        c.outcome.Ok? ==> c.outcome.value.id != id
    {
      WritesKeepIdFree(d, ws[..k], id);
      CreateAddsOneRow(ApplyAll(d, ws[..k]), ws[k].name, ws[k].price, ws[k].fault);
    }
  }

  // ---------------------------------------------------------------- the table

  /** The `items` table, updated in place by the service's writes. */
  class ItemTable {
    var rows: map<int, Item>
    var nextId: nat
    var clock: nat

    function State(): TableState
      reads this
    {
      TableState(rows, nextId, clock)
    }

    ghost predicate Valid()
      reads this
    {
      WellFormed(State())
    }

    constructor ()
      ensures Valid() && State() == EmptyTable()
    {
      rows := map[];
      nextId := 1;
      clock := 0;
    }

    method Create(name: JsonField<string>, price: JsonField<int>, fault: StoreFault) returns (r: Outcome<Item>)
      requires Valid()
      modifies this
      ensures Valid()
      ensures Step(State(), r) == CreateStep(old(State()), name, price, fault)
    {
      CreateAddsOneRow(State(), name, price, fault);
      if FalsyName(name) || FalsyPrice(price) {
        return Err(Validation(NameAndPriceRequired));
      }
      if price.value < 0 {
        return Err(Validation(PriceCannotBeNegative));
      }
      if fault == WriteFault || !AcceptsInsert(name, price) {
        return Err(Internal(ErrorCreatingItem));
      }
      var item := Item(nextId, name.value, price.value, clock, clock);
      rows := rows[nextId := item];
      nextId := nextId + 1;
      clock := clock + 1;
      r := Ok(item);
    }

    method Update(id: int, name: JsonField<string>, price: JsonField<int>, fault: StoreFault) returns (r: Outcome<Item>)
      requires Valid()
      modifies this
      ensures Valid()
      ensures Step(State(), r) == UpdateStep(old(State()), id, name, price, fault)
    {
      UpdateChangesOneRow(State(), id, name, price, fault);
      if fault == ReadFault {
        return Err(Internal(ErrorUpdatingItem));
      }
      if id !in rows {
        return Err(NotFound(ItemNotFound));
      }
      if price.Present? && price.value < 0 {
        return Err(Validation(PriceCannotBeNegative));
      }
      if fault == WriteFault || !AcceptsUpdate(name, price) {
        return Err(Internal(ErrorUpdatingItem));
      }
      var item := rows[id];
      item := item.(name := Assigned(name, item.name), price := Assigned(price, item.price), updatedAt := clock);
      rows := rows[id := item];
      clock := clock + 1;
      r := Ok(item);
    }

    method Delete(id: int, fault: StoreFault) returns (r: Outcome<()>)
      requires Valid()
      modifies this
      ensures Valid()
      ensures Step(State(), r) == DeleteStep(old(State()), id, fault)
    {
      DeleteRemovesOneRow(State(), id, fault);
      if fault == ReadFault {
        return Err(Internal(ErrorDeletingItem));
      }
      if id !in rows {
        return Err(NotFound(ItemNotFound));
      }
      if fault == WriteFault {
        return Err(Internal(ErrorDeletingItem));
      }
      rows := rows - {id};
      r := Ok(());
    }
  }
}
