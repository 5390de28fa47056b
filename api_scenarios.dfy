/** The end-to-end request sequences of the API's test suite, stated for every
    well-formed table rather than for one run. */
module ApiScenarios {
  import opened Types
  import opened ItemModel
  import opened Pagination
  import opened ItemService
  import opened ItemController

  /** `GET /items` on an empty table with no query parameters. */
  lemma ListEmptyTable(fault: StoreFault)
    requires fault != ReadFault
    ensures GetAllItems(Missing, Missing, EmptyTable(), fault) ==
      Response(200, PageBody(ListPage([], 0, 1, 0, 10)))
  {
  }

  /** After a successful `POST /items`, `GET /items/:id` on the returned id
      answers 200 with the posted name and price, and the table lists one more
      row. */
  lemma CreateThenGet(s: TableState, name: JsonField<string>, price: JsonField<int>)
    requires WellFormed(s) && CreateStep(s, name, price, NoFault).outcome.Ok?
    ensures var r := CreateStep(s, name, price, NoFault);
      var resp := GetItemById(r.outcome.value.id, r.state, NoFault);
      CreateItem(name, r.outcome).status == 201 &&
      resp.status == 200 && resp.body.item.name == name.value && resp.body.item.price == price.value &&
      FindAll(r.state, 1, 10, NoFault).value.total == |s.rows| + 1
  {
    CreateAddsOneRow(s, name, price, NoFault);
  }

  /** On an empty table, a created item is the only item of the first page. */
  lemma CreateThenList(name: string, price: int)
    requires name != "" && price > 0
    ensures var r := CreateStep(EmptyTable(), Present(name), Present(price), NoFault);
      var page := FindAll(r.state, 1, 10, NoFault).value;
      |page.items| == 1 && page.items[0].name == name && page.items[0].price == price
  {
    var r := CreateStep(EmptyTable(), Present(name), Present(price), NoFault);
    assert r.state.rows == map[1 := Item(1, name, price, 0, 0)];
    assert NewestFirst(r.state.rows, 1) == [];
    assert Listing(r.state) == [Item(1, name, price, 0, 0)] + NewestFirst(r.state.rows, 1);
  }

  /** `PUT /items/:id` with a new name and a non-negative price, then
      `GET /items/:id`: both answer 200 with the new values. */
  lemma UpdateThenGet(s: TableState, id: int, name: string, price: int)
    requires WellFormed(s) && id in s.rows && price >= 0
    ensures var r := UpdateStep(s, id, Present(name), Present(price), NoFault);
      var put := UpdateItem(r.outcome);
      var get := GetItemById(id, r.state, NoFault);
      put.status == 200 && put.body.item.name == name && put.body.item.price == price &&
      get.status == 200 && get.body.item.name == name && get.body.item.price == price
  {
    UpdateChangesOneRow(s, id, Present(name), Present(price), NoFault);
  }

  /** `DELETE /items/:id` answers 204, after which `GET /items/:id` answers 404
      `{ error: "Item not found" }`. */
  lemma DeleteThenGet(s: TableState, id: int)
    requires WellFormed(s) && id in s.rows
    ensures var r := DeleteStep(s, id, NoFault);
      DeleteItem(r.outcome) == Response(204, NoBody) &&
      GetItemById(id, r.state, NoFault) == Response(404, ErrorBody(ItemNotFound))
  {
  }

  /** Posting a negative price with a name answers 400 on `price`, and the
      table is unchanged. */
  lemma CreateNegativePrice(s: TableState, name: string, price: int, fault: StoreFault)
    requires name != "" && price < 0
    ensures var r := CreateStep(s, Present(name), Present(price), fault);
      r.state == s &&
      CreateItem(Present(name), r.outcome) ==
        Response(400, FieldErrorsBody([FieldError("price", PriceCannotBeNegative)]))
  {
  }

  /** Posting a body without a name answers 400 on `name`, whatever the price. */
  lemma CreateWithoutName(s: TableState, price: JsonField<int>, fault: StoreFault)
    ensures var r := CreateStep(s, Absent, price, fault);
      r.state == s &&
      CreateItem(Absent, r.outcome) ==
        Response(400, FieldErrorsBody([FieldError("name", NameAndPriceRequired)]))
  {
  }

  /** Posting a price of 0 is refused as missing, unlike an update to 0. */
  lemma ZeroPriceRefusedOnCreateOnly(s: TableState, name: string, id: int)
    requires WellFormed(s) && name != "" && id in s.rows
    ensures CreateItem(Present(name), CreateStep(s, Present(name), Present(0), NoFault).outcome) ==
      Response(400, FieldErrorsBody([FieldError("price", NameAndPriceRequired)]))
    ensures UpdateItem(UpdateStep(s, id, Present(name), Present(0), NoFault).outcome).status == 200
  {
    UpdateChangesOneRow(s, id, Present(name), Present(0), NoFault);
  }

  /** `PUT` and `DELETE` on an id that is not in the table both answer 404
      `{ error: "Item not found" }`, whatever the body. */
  lemma MissingIdIsNotFound(s: TableState, id: int, name: JsonField<string>, price: JsonField<int>)
    requires id !in s.rows
    ensures UpdateItem(UpdateStep(s, id, name, price, NoFault).outcome) == Response(404, ErrorBody(ItemNotFound))
    ensures DeleteItem(DeleteStep(s, id, NoFault).outcome) == Response(404, ErrorBody(ItemNotFound))
  {
  }

  /** With 15 rows, `?page=1&limit=10` answers 10 items, total 15, 2 pages, and
      `?page=2&limit=10` the remaining 5: together the whole listing. */
  lemma FifteenItemsInTwoPages(s: TableState)
    requires WellFormed(s) && |s.rows| == 15
    ensures var r1 := GetAllItems(Number(1), Number(10), s, NoFault);
      var r2 := GetAllItems(Number(2), Number(10), s, NoFault);
      r1.status == 200 && |r1.body.page.items| == 10 && r1.body.page.total == 15 &&
      r1.body.page.currentPage == 1 && r1.body.page.totalPages == 2 && r1.body.page.itemsPerPage == 10 &&
      r2.status == 200 && |r2.body.page.items| == 5 && r2.body.page.currentPage == 2 &&
      r1.body.page.items + r2.body.page.items == Listing(s)
  {
    FindAllPage(s, 1, 10, NoFault);
    FindAllPage(s, 2, 10, NoFault);
    AllPagesListTable(s, 10);
    assert PageCount(15, 10) == 2;
    ListingIsTable(s);
    assert Pages(Listing(s), 10, 2) == Pages(Listing(s), 10, 0) + PageOf(Listing(s), 1, 10) + PageOf(Listing(s), 2, 10);
  }

  /** `?page=-1&limit=10` answers 400 without reaching the service. */
  lemma NegativePageRejected(s: TableState, fault: StoreFault)
    ensures GetAllItems(Number(-1), Number(10), s, fault) == Response(400, ErrorBody(BadPaging))
  {
  }
}
