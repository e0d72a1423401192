/** The transaction service: creating, reading, listing, updating and
    deleting a user's ledger entries, with the request validation and the
    ownership checks the service performs before it touches the store.

    The store is a map from id to record plus the next id it will hand
    out; a write the database refuses is the `fault` parameter. Amounts
    are reals: the service only compares them with zero and copies them. */
module TransactionService {
  import opened Wrappers
  import opened Calendar

  datatype Record = Record(id: nat, userId: nat, categoryId: Option<nat>, amount: real, kind: string,
                           description: string, date: Date, source: string)

  datatype Ledger = Ledger(records: map<nat, Record>, nextId: nat)

  /** What a create request carries. */
  datatype CreateRequest = CreateRequest(categoryId: Option<nat>, amount: real, kind: string,
                                         description: string, date: Date, source: string)

  /** What an update request carries; a zero amount, an empty string, a
      missing category and the zero date mean "not supplied". */
  datatype UpdateRequest = UpdateRequest(categoryId: Option<nat>, amount: real, kind: string,
                                         description: string, date: Date)

  /** The query the repository receives when listing. */
  datatype Filter = Filter(userId: nat, kind: string, startDate: Option<Date>, endDate: Option<Date>,
                           categoryId: Option<nat>, page: int, pageSize: int)

  /** The ledger after a call, and the record or the error it returned. */
  datatype Reply = Reply(ledger: Ledger, result: Result<Record>)

  const Income: string := "income"
  const Expense: string := "expense"
  const ManualSource: string := "manual"

  const AmountNotPositive: string := "amount must be greater than 0"
  const InvalidType: string := "type must be either 'income' or 'expense'"
  const Unauthorized: string := "unauthorized access to transaction"
  const NotFound: string := "transaction not found"

  /** Go's zero `time.Time`, which an update reads as "no date supplied". */
  const ZeroDate: Date := Date(1, 1, 1)

  /** Every record sits under its own id, below the next id. */
  ghost predicate Valid(l: Ledger) {
    forall id :: id in l.records ==> l.records[id].id == id && id < l.nextId
  }

  predicate ValidKind(kind: string) {
    kind == Income || kind == Expense
  }

  // ---------------------------------------------------------------------
  // Create

  /** `CreateTransaction`: amount first, then type, then the insert. */
  function CreateTransaction(l: Ledger, userId: nat, req: CreateRequest, fault: Option<string>): (r: Reply)
    ensures r.result.Err? ==> r.ledger == l
    ensures req.amount <= 0.0 ==> r.result == Err(AmountNotPositive)
    ensures req.amount > 0.0 && !ValidKind(req.kind) ==> r.result == Err(InvalidType)
    ensures req.amount > 0.0 && ValidKind(req.kind) && fault.Some? ==> r.result == Err(fault.value)
    ensures r.result.Ok? <==> req.amount > 0.0 && ValidKind(req.kind) && fault.None?
    ensures r.result.Ok? ==>
      var x := r.result.value;
      && x.id == l.nextId && r.ledger == Ledger(l.records[x.id := x], l.nextId + 1)
      && x.userId == userId && x.categoryId == req.categoryId && x.amount == req.amount
      && x.kind == req.kind && x.description == req.description && x.date == req.date
      && x.source == (if req.source == "" then ManualSource else req.source)
  {
    if req.amount <= 0.0 then Reply(l, Err(AmountNotPositive))
    else if !ValidKind(req.kind) then Reply(l, Err(InvalidType))
    else
      var source := if req.source == "" then ManualSource else req.source;
      var x := Record(l.nextId, userId, req.categoryId, req.amount, req.kind, req.description, req.date, source);
      match fault
      case Some(e) => Reply(l, Err(e))
      case None => Reply(Ledger(l.records[x.id := x], l.nextId + 1), Ok(x))
  }

  /** Creating keeps the ledger well-formed and every earlier record. */
  lemma CreateValid(l: Ledger, userId: nat, req: CreateRequest, fault: Option<string>)
    requires Valid(l)
    ensures var r := CreateTransaction(l, userId, req, fault);
      && Valid(r.ledger)
      && (r.result.Ok? ==> r.result.value.id !in l.records)
      && (forall id :: id in l.records ==> id in r.ledger.records && r.ledger.records[id] == l.records[id])
  {
  }

  /** A created record can be read back by its owner, and only by its owner. */
  lemma CreateThenGet(l: Ledger, userId: nat, req: CreateRequest, other: nat)
    requires Valid(l)
    requires CreateTransaction(l, userId, req, None).result.Ok?
    ensures var r := CreateTransaction(l, userId, req, None);
      && GetTransaction(r.ledger, r.result.value.id, userId) == Ok(r.result.value)
      && (other != userId ==> GetTransaction(r.ledger, r.result.value.id, other) == Err(Unauthorized))
  {
  }

  // ---------------------------------------------------------------------
  // Read

  /** `GetTransaction`: the record, if it exists and the caller owns it. */
  function GetTransaction(l: Ledger, id: nat, userId: nat): (r: Result<Record>)
    ensures r.Ok? <==> id in l.records && l.records[id].userId == userId
    ensures r.Ok? ==> r.value == l.records[id]
    ensures r == Err(NotFound) <==> id !in l.records
    ensures r == Err(Unauthorized) <==> id in l.records && l.records[id].userId != userId
  {
    if id !in l.records then Err(NotFound)
    else if l.records[id].userId != userId then Err(Unauthorized)
    else Ok(l.records[id])
  }

  /** `ListTransactions`: the caller's filter with its user replaced by the
      caller, whatever user it named. */
  function ListFilter(userId: nat, filter: Filter): (r: Filter)
    ensures r.userId == userId
    ensures r.(userId := filter.userId) == filter
  {
    filter.(userId := userId)
  }

  // ---------------------------------------------------------------------
  // Update

  /** The fields of `req` that are supplied, written over `x`. */
  function Merge(x: Record, req: UpdateRequest): (r: Result<Record>)
    ensures r.Err? <==> req.kind != "" && !ValidKind(req.kind)
    ensures r.Err? ==> r.msg == InvalidType
    ensures r.Ok? ==>
      var y := r.value;
      && y.id == x.id && y.userId == x.userId && y.source == x.source
      && y.amount == (if req.amount > 0.0 then req.amount else x.amount)
      && y.kind == (if req.kind != "" then req.kind else x.kind)
      && y.categoryId == (if req.categoryId.Some? then req.categoryId else x.categoryId)
      && y.description == (if req.description != "" then req.description else x.description)
      && y.date == (if req.date != ZeroDate then req.date else x.date)
  {
    if req.kind != "" && !ValidKind(req.kind) then Err(InvalidType)
    else
      var amount := if req.amount > 0.0 then req.amount else x.amount;
      var kind := if req.kind != "" then req.kind else x.kind;
      var category := if req.categoryId.Some? then req.categoryId else x.categoryId;
      var description := if req.description != "" then req.description else x.description;
      var date := if req.date != ZeroDate then req.date else x.date;
      Ok(x.(amount := amount, kind := kind, categoryId := category, description := description, date := date))
  }

  /** `UpdateTransaction`: ownership, then the merge, then the write. */
  function UpdateTransaction(l: Ledger, id: nat, userId: nat, req: UpdateRequest, fault: Option<string>): (r: Reply)
    ensures r.result.Err? ==> r.ledger == l
    ensures GetTransaction(l, id, userId).Err? ==> r.result == GetTransaction(l, id, userId)
    ensures r.result.Ok? ==>
      && GetTransaction(l, id, userId).Ok?
      && Merge(l.records[id], req) == r.result
      && fault.None?
      && r.ledger == l.(records := l.records[id := r.result.value])
  {
    match GetTransaction(l, id, userId)
    case Err(e) => Reply(l, Err(e))
    case Ok(x) =>
      match Merge(x, req)
      case Err(e) => Reply(l, Err(e))
      case Ok(y) =>
        if fault.Some? then Reply(l, Err(fault.value))
        else Reply(l.(records := l.records[id := y]), Ok(y))
  }

  /** An update with nothing supplied leaves the record as it was. */
  lemma UpdateNothing(x: Record)
    ensures Merge(x, UpdateRequest(None, 0.0, "", "", ZeroDate)) == Ok(x)
  {
  }

  /** Applying the same update twice is applying it once. */
  lemma MergeIdempotent(x: Record, req: UpdateRequest)
    requires Merge(x, req).Ok?
    ensures Merge(Merge(x, req).value, req) == Merge(x, req)
  {
  }

  /** An update succeeds exactly when the caller owns an existing record,
      any type supplied is valid, and the write goes through. */
  lemma UpdateSucceeds(l: Ledger, id: nat, userId: nat, req: UpdateRequest, fault: Option<string>)
    ensures UpdateTransaction(l, id, userId, req, fault).result.Ok? <==>
      id in l.records && l.records[id].userId == userId && (req.kind == "" || ValidKind(req.kind)) && fault.None?
  {
  }

  /** Updating keeps the ledger well-formed and touches only its own id. */
  lemma UpdateValid(l: Ledger, id: nat, userId: nat, req: UpdateRequest, fault: Option<string>)
    requires Valid(l)
    ensures var r := UpdateTransaction(l, id, userId, req, fault);
      && Valid(r.ledger)
      && r.ledger.records.Keys == l.records.Keys
      && (forall k :: k in l.records && k != id ==> r.ledger.records[k] == l.records[k])
  {
  }

  // ---------------------------------------------------------------------
  // Delete

  /** `DeleteTransaction`: ownership, then removal of exactly that id. */
  function DeleteTransaction(l: Ledger, id: nat, userId: nat, fault: Option<string>): (r: (Ledger, Option<string>))
    ensures r.1.Some? ==> r.0 == l
    ensures GetTransaction(l, id, userId).Err? ==> r.1 == Some(GetTransaction(l, id, userId).msg)
    ensures r.1.None? <==> GetTransaction(l, id, userId).Ok? && fault.None?
    ensures r.1.None? ==> r.0 == l.(records := l.records - {id})
  {
    match GetTransaction(l, id, userId)
    case Err(e) => (l, Some(e))
    case Ok(_) =>
      if fault.Some? then (l, fault) else (l.(records := l.records - {id}), None)
  }

  /** After a delete the record is gone and every other record is kept. */
  lemma DeleteThenGet(l: Ledger, id: nat, userId: nat, other: nat, u: nat)
    requires DeleteTransaction(l, id, userId, None).1.None?
    requires other != id
    ensures var after := DeleteTransaction(l, id, userId, None).0;
      && GetTransaction(after, id, u) == Err(NotFound)
      && GetTransaction(after, other, u) == GetTransaction(l, other, u)
  {
  }

  lemma DeleteValid(l: Ledger, id: nat, userId: nat, fault: Option<string>)
    requires Valid(l)
    ensures Valid(DeleteTransaction(l, id, userId, fault).0)
  {
  }
}
