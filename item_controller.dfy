/** `ItemController`: what each HTTP handler answers, as a function of the parsed
    request and what the service returned. The list and get handlers call the
    service's read functions on the table directly; create, update and delete
    take the outcome of the corresponding service write. */
module ItemController {
  import opened Types
  import opened ItemModel
  import opened ItemService

  const DefaultPage := 1
  const DefaultLimit := 10
  const BadPaging := "Page and limit parameters must be positive numbers"

  /** A query-string parameter after `Number(...)`: not given (or empty, which
      JavaScript treats as not given), not a number, or a number. */
  datatype QueryParam = Missing | NotANumber | Number(n: int)

  /** One entry of the `errors` array of a 400 answer to a create or update. */
  datatype FieldError = FieldError(field: string, message: string)

  /** The JSON body of a response. */
  datatype Body =
    | PageBody(page: ListPage)                    // the list response
    | ItemBody(item: Item)                        // one item
    | ErrorBody(error: string)                    // `{ error: ... }`
    | FieldErrorsBody(errors: seq<FieldError>)    // `{ errors: [...] }`
    | NoBody                                      // 204

  datatype Response = Response(status: int, body: Body)

  /** A query parameter with its default filled in when it was not given. */
  function WithDefault(q: QueryParam, default: int): QueryParam
  {
    if q.Missing? then Number(default) else q
  }

  /** The page and limit `getAllItems` passes to the service, or `None` when it
      must answer 400: an absent page is 1 and an absent limit 10; a value that
      is not a number or is below 1 is refused. */
  function Paging(page: QueryParam, limit: QueryParam): (r: Option<(int, int)>)
    ensures r.Some? <==>
      (page.Missing? || (page.Number? && page.n >= 1)) && (limit.Missing? || (limit.Number? && limit.n >= 1))
    ensures r.Some? ==> r.value.0 >= 1 && r.value.1 >= 1
    ensures r.Some? && page.Missing? ==> r.value.0 == DefaultPage
    ensures r.Some? && limit.Missing? ==> r.value.1 == DefaultLimit
    ensures r.Some? && page.Number? ==> r.value.0 == page.n
    ensures r.Some? && limit.Number? ==> r.value.1 == limit.n
  {
    var p := WithDefault(page, DefaultPage);
    var l := WithDefault(limit, DefaultLimit);
    if p.NotANumber? || l.NotANumber? || p.n < 1 || l.n < 1 then None
    else Some((p.n, l.n))
  }

  /** `GET /items`. */
  function GetAllItems(page: QueryParam, limit: QueryParam, s: TableState, fault: StoreFault): (resp: Response)
    ensures Paging(page, limit).None? ==> resp == Response(400, ErrorBody(BadPaging))
    ensures resp.status == 400 <==> Paging(page, limit).None?
    ensures Paging(page, limit).Some? && fault == ReadFault ==> resp == Response(500, ErrorBody(ErrorGettingItems))
    ensures resp.status == 200 <==> Paging(page, limit).Some? && fault != ReadFault
    ensures resp.status == 200 ==> resp.body.PageBody? && resp.body.page.total == |s.rows|
    ensures resp.status == 200 ==>
      resp.body == PageBody(FindAll(s, Paging(page, limit).value.0, Paging(page, limit).value.1, fault).value)
    ensures resp.status in {200, 400, 500}
    ensures resp.status == 500 ==> resp.body == ErrorBody(ErrorGettingItems)
  {
    match Paging(page, limit)
    case None => Response(400, ErrorBody(BadPaging))
    case Some(pl) =>
      match FindAll(s, pl.0, pl.1, fault)
      case Ok(p) => Response(200, PageBody(p))
      case Err(_) => Response(500, ErrorBody(ErrorGettingItems))
  }

  /** When the paging parameters are refused the service is never asked: the
      answer is the same 400 whatever the table holds and whether or not the
      store would fail. */
  lemma PagingRejectedBeforeService(page: QueryParam, limit: QueryParam,
                                    s1: TableState, f1: StoreFault, s2: TableState, f2: StoreFault)
    requires page.NotANumber? || limit.NotANumber? || (page.Number? && page.n < 1) || (limit.Number? && limit.n < 1)
    ensures GetAllItems(page, limit, s1, f1) == GetAllItems(page, limit, s2, f2)
    ensures GetAllItems(page, limit, s1, f1) == Response(400, ErrorBody(BadPaging))
  {
  }

  /** `GET /items/:id`. */
  function GetItemById(id: int, s: TableState, fault: StoreFault): (resp: Response)
    ensures resp.status in {200, 404, 500}
    ensures resp.status == 200 <==> fault != ReadFault && id in s.rows
    ensures resp.status == 200 ==> resp.body == ItemBody(s.rows[id])
    ensures resp.status == 404 <==> fault != ReadFault && id !in s.rows
    ensures resp.status == 404 ==> resp.body == ErrorBody(ItemNotFound)
    ensures resp.status == 500 ==> resp.body == ErrorBody(ErrorGettingItem)
  {
    match FindById(s, id, fault)
    case Ok(it) => Response(200, ItemBody(it))
    case Err(e) =>
      if e.NotFound? then Response(404, ErrorBody(ItemNotFound))
      else Response(500, ErrorBody(ErrorGettingItem))
  }

  /** The field a create's validation error is reported against: `name` when
      the body's name is falsy, `price` otherwise. */
  function CreateErrorField(name: JsonField<string>): string
  {
    if FalsyName(name) then "name" else "price"
  }

  /** `POST /items`, given the body's name and the outcome of `create`. */
  function CreateItem(name: JsonField<string>, outcome: Outcome<Item>): (resp: Response)
    ensures resp.status in {201, 400, 500}
    ensures resp.status == 201 <==> outcome.Ok?
    ensures resp.status == 201 ==> resp.body == ItemBody(outcome.value)
    ensures resp.status == 400 <==> outcome.Err? && outcome.error.Validation?
    ensures resp.status == 400 ==>
      resp.body == FieldErrorsBody([FieldError(CreateErrorField(name), outcome.error.message)])
    ensures resp.status == 500 ==> resp.body == ErrorBody(ErrorCreatingItem)
  {
    match outcome
    case Ok(it) => Response(201, ItemBody(it))
    case Err(e) =>
      if e.Validation? then Response(400, FieldErrorsBody([FieldError(CreateErrorField(name), e.message)]))
      else Response(500, ErrorBody(ErrorCreatingItem))
  }

  /** `PUT /items/:id`, given the outcome of `update`. "Item not found" is
      tested first; any validation error is reported against `price`. */
  function UpdateItem(outcome: Outcome<Item>): (resp: Response)
    ensures resp.status in {200, 400, 404, 500}
    ensures resp.status == 200 <==> outcome.Ok?
    ensures resp.status == 200 ==> resp.body == ItemBody(outcome.value)
    ensures resp.status == 404 <==> outcome.Err? && outcome.error.NotFound?
    ensures resp.status == 404 ==> resp.body == ErrorBody(ItemNotFound)
    ensures resp.status == 400 <==> outcome.Err? && outcome.error.Validation?
    ensures resp.status == 400 ==> resp.body == FieldErrorsBody([FieldError("price", outcome.error.message)])
    ensures resp.status == 500 ==> resp.body == ErrorBody(ErrorUpdatingItem)
  {
    match outcome
    case Ok(it) => Response(200, ItemBody(it))
    case Err(e) =>
      if e.NotFound? then Response(404, ErrorBody(ItemNotFound))
      else if e.Validation? then Response(400, FieldErrorsBody([FieldError("price", e.message)]))
      else Response(500, ErrorBody(ErrorUpdatingItem))
  }

  /** `DELETE /items/:id`, given the outcome of `delete`. */
  function DeleteItem(outcome: Outcome<()>): (resp: Response)
    ensures resp.status in {204, 404, 500}
    ensures resp.status == 204 <==> outcome.Ok?
    ensures resp.status == 204 ==> resp.body == NoBody
    ensures resp.status == 404 <==> outcome.Err? && outcome.error.NotFound?
    ensures resp.status == 404 ==> resp.body == ErrorBody(ItemNotFound)
    ensures resp.status == 500 ==> resp.body == ErrorBody(ErrorDeletingItem)
  {
    match outcome
    case Ok(_) => Response(204, NoBody)
    case Err(e) =>
      if e.NotFound? then Response(404, ErrorBody(ItemNotFound))
      else Response(500, ErrorBody(ErrorDeletingItem))
  }

  // ------------------------------------------------- handler and service together

  /** What `POST /items` answers for a body, a table and a store: 201 with the
      new row when both fields are truthy and the price is positive; otherwise
      400 whose one entry names `name` exactly when the name is falsy, and
      `price` whenever the message is "Price cannot be negative"; 500 only when
      the store's write fails. */
  lemma CreateAnswers(s: TableState, name: JsonField<string>, price: JsonField<int>, fault: StoreFault)
    ensures var resp := CreateItem(name, CreateStep(s, name, price, fault).outcome);
      (resp.status == 201 <==> CreateValidation(name, price) == None && fault != WriteFault) &&
      (resp.status == 201 ==>
        resp.body.ItemBody? && resp.body.item.name == name.value && resp.body.item.price == price.value) &&
      (resp.status == 400 <==> CreateValidation(name, price).Some?) &&
      (resp.status == 400 ==>
        resp.body.FieldErrorsBody? && |resp.body.errors| == 1 &&
        (resp.body.errors[0].field == "name" <==> FalsyName(name)) &&
        (resp.body.errors[0].message == PriceCannotBeNegative ==> resp.body.errors[0].field == "price") &&
        (resp.body.errors[0].message == PriceCannotBeNegative || resp.body.errors[0].message == NameAndPriceRequired)) &&
      (resp.status == 500 <==> CreateValidation(name, price) == None && fault == WriteFault)
  {
  }

  /** What `PUT /items/:id` answers: 404 for a missing row before the price is
      looked at, then 400 on `price` for a negative price, 200 with the row as
      written otherwise, and 500 only for a store failure or a null field. */
  lemma UpdateAnswers(s: TableState, id: int, name: JsonField<string>, price: JsonField<int>, fault: StoreFault)
    requires WellFormed(s)
    ensures var resp := UpdateItem(UpdateStep(s, id, name, price, fault).outcome);
      (resp.status == 404 <==> fault != ReadFault && id !in s.rows) &&
      (resp.status == 404 ==> resp.body == ErrorBody(ItemNotFound)) &&
      (resp.status == 400 <==> fault != ReadFault && id in s.rows && price.Present? && price.value < 0) &&
      (resp.status == 400 ==> resp.body == FieldErrorsBody([FieldError("price", PriceCannotBeNegative)])) &&
      (resp.status == 200 <==> fault == NoFault && id in s.rows && AcceptsUpdate(name, price)) &&
      (resp.status == 200 ==>
        resp.body.ItemBody? && resp.body.item.id == id &&
        (name.Present? ==> resp.body.item.name == name.value) &&
        (price.Present? ==> resp.body.item.price == price.value))
  {
    UpdateChangesOneRow(s, id, name, price, fault);
  }

  /** What `DELETE /items/:id` answers: 404 for a missing row, 204 with no body
      when the row is removed, 500 only for a store failure. */
  lemma DeleteAnswers(s: TableState, id: int, fault: StoreFault)
    ensures var resp := DeleteItem(DeleteStep(s, id, fault).outcome);
      (resp.status == 404 <==> fault != ReadFault && id !in s.rows) &&
      (resp.status == 204 <==> fault == NoFault && id in s.rows) &&
      (resp.status == 204 ==> resp.body == NoBody) &&
      (resp.status == 500 <==> fault != NoFault && (fault == ReadFault || id in s.rows))
  {
  }
}
