/** The four request handlers of controller.js. Each ends in one response, a
    status code and a JSON body with a fixed message. createUser,
    customerupdate and customerDelete change the collection and are methods
    over a `CustomerStore`; getCustomer only reads it and is a function of the
    stored table. Every store call either completes or raises; a raise is
    caught by the handler's catch-all and answered with 501. */
module Controller {
  import opened CustomerModel
  import opened Store

  /** How one store call ends: it completes, or it raises (connection loss,
      a cast or validation error inside the store, ...). */
  datatype StoreCall = Completes | Raises

  /** `req.body` as createUser destructures it: each field may be absent. */
  datatype RequestBody = RequestBody(name: Option<string>, email: Option<string>, age: Option<int>)

  /** One element of the list response: the stored identifier and the fields. */
  datatype CustomerView = CustomerView(id: Id, name: string, email: string, age: int)

  /** The JSON bodies the handlers send. */
  datatype Body =
    | Message(message: string)
    | Added(success: bool, message: string, customer: Customer)
    | Listed(success: bool, message: string, count: nat, customers: seq<CustomerView>)
    | Updated(success: bool, message: string, details: Customer)
    | Deleted(success: bool, message: string, deletedName: string)

  datatype Response = Response(status: nat, body: Body)

  /** A handler's response together with the table as it stands afterwards. */
  datatype Outcome = Outcome(response: Response, db: seq<Record>)

  const MissingFields := "Please Provide All the Fields"
  const AlreadyExists := "You Already Exist Edit your details"
  const CustomerAdded := "Customer Has Been Added"
  const CreateFailed := "Could Not create a user"
  const CustomersListed := "Customer are this"
  const ListFailed := "Get User Could not be fullfilled"
  const CustomerUpdated := "customer updated"
  const UpdateFailed := "Could not Update"
  const CustomerDeleted := "Customer Deleted"
  const DeleteFailed := "Could not delete"

  /** JavaScript truthiness of a string field: of the values a string field
      can hold, only `undefined` and "" are falsy. */
  predicate TruthyString(v: Option<string>) {
    v.Some? && v.value != ""
  }

  /** JavaScript truthiness of a number field: of the values an integer field
      can hold, only `undefined` and 0 are falsy. */
  predicate TruthyNumber(v: Option<int>) {
    v.Some? && v.value != 0
  }

  /** The guard of createUser: none of name, email, age is falsy. */
  predicate AllFieldsProvided(body: RequestBody) {
    TruthyString(body.name) && TruthyString(body.email) && TruthyNumber(body.age)
  }

  /** The document createUser builds from a complete body: the submitted
      values, with both strings non-empty and the age non-zero. */
  function NewCustomer(body: RequestBody): (c: Customer)
    requires AllFieldsProvided(body)
    ensures Some(c.name) == body.name && Some(c.email) == body.email && Some(c.age) == body.age
    ensures |c.name| > 0 && |c.email| > 0 && c.age != 0
  {
    Customer(body.name.value, body.email.value, body.age.value)
  }

  /** createUser: validate, look the email up, insert, respond. */
  function CreateUserOutcome(db: seq<Record>, issued: seq<Id>, body: RequestBody, lookup: StoreCall, save: StoreCall)
    : (o: Outcome)
    // the only success: a complete body, both store calls completing, an unused email
    ensures o.response.status == 201 <==>
      AllFieldsProvided(body) && lookup.Completes? && !EmailTaken(db, body.email.value) && save.Completes?
    // on success exactly one document is appended, under an id never issued
    // before, and echoed without its id
    ensures o.response.status == 201 ==>
      && o.db == db + [Record(FreshId(issued), NewCustomer(body))]
      && FreshId(issued) !in issued
      && (IdsIssued(db, issued) ==> !HasId(db, FreshId(issued)))
      && o.response.body == Added(true, CustomerAdded, NewCustomer(body))
    // every other answer leaves the table as it was
    ensures o.response.status != 201 ==> o.db == db
    ensures !AllFieldsProvided(body) ==> o.response == Response(401, Message(MissingFields))
    ensures AllFieldsProvided(body) && lookup.Completes? && EmailTaken(db, body.email.value) ==>
      o.response == Response(401, Message(AlreadyExists))
    ensures AllFieldsProvided(body) && (lookup.Raises? || (!EmailTaken(db, body.email.value) && save.Raises?)) ==>
      o.response == Response(501, Message(CreateFailed))
  {
    if !AllFieldsProvided(body) then
      Outcome(Response(401, Message(MissingFields)), db)
    else if lookup.Raises? then
      Outcome(Response(501, Message(CreateFailed)), db)
    else if FirstWithEmail(db, body.email.value).Some? then
      Outcome(Response(401, Message(AlreadyExists)), db)
    else if save.Raises? then
      Outcome(Response(501, Message(CreateFailed)), db)
    else
      var c := NewCustomer(body);
      Outcome(Response(201, Added(true, CustomerAdded, c)), db + [Record(FreshId(issued), c)])
  }

  /** The `.map` of getCustomer: each document as `{id, name, email, age}`. */
  function Views(db: seq<Record>): (vs: seq<CustomerView>)
    ensures |vs| == |db|
    ensures forall i :: 0 <= i < |db| ==>
      vs[i] == CustomerView(db[i].id, db[i].customer.name, db[i].customer.email, db[i].customer.age)
  {
    if db == [] then []
    else
      var c := db[0].customer;
      [CustomerView(db[0].id, c.name, c.email, c.age)] + Views(db[1..])
  }

  /** getCustomer: the whole table, projected, in store order. */
  function GetCustomer(db: seq<Record>, find: StoreCall): (r: Response)
    ensures find.Raises? ==> r == Response(501, Message(ListFailed))
    ensures find.Completes? ==>
      && r.status == 201
      && r.body.Listed? && r.body.success && r.body.message == CustomersListed
      && r.body.count == |db| == |r.body.customers|
      && (forall i :: 0 <= i < |db| ==> r.body.customers[i].id == db[i].id)
      && (forall i :: 0 <= i < |db| ==>
            var v := r.body.customers[i];
            Customer(v.name, v.email, v.age) == db[i].customer)
  {
    if find.Raises? then Response(501, Message(ListFailed))
    else Response(201, Listed(true, CustomersListed, |db|, Views(db)))
  }

  /** customerupdate: `findByIdAndUpdate` with the three supplied values,
      then a read of the returned document, which throws when it is null. */
  function CustomerUpdateOutcome(db: seq<Record>, id: Id, fields: Customer, update: StoreCall): (o: Outcome)
    ensures o.response.status == 201 <==> update.Completes? && HasId(db, id)
    ensures o.response.status == 201 ==>
      o.db == UpdateById(db, id, fields) && o.response.body == Updated(true, CustomerUpdated, fields)
    ensures o.response.status != 201 ==> o.db == db && o.response == Response(501, Message(UpdateFailed))
  {
    if update.Raises? then
      Outcome(Response(501, Message(UpdateFailed)), db)
    else
      UpdateByIdReadsBack(db, id, fields);
      match RecordWithId(UpdateById(db, id, fields), id)
      case None => Outcome(Response(501, Message(UpdateFailed)), db)
      case Some(rec) =>
        Outcome(Response(201, Updated(true, CustomerUpdated, rec.customer)), UpdateById(db, id, fields))
  }

  /** customerDelete: `findByIdAndDelete`, then a read of the returned
      document's name, which throws when it is null. */
  function CustomerDeleteOutcome(db: seq<Record>, id: Id, delete: StoreCall): (o: Outcome)
    ensures o.response.status == 201 <==> delete.Completes? && HasId(db, id)
    ensures o.response.status == 201 ==>
      && o.db == DeleteById(db, id)
      && o.response.body == Deleted(true, CustomerDeleted, RecordWithId(db, id).value.customer.name)
    ensures o.response.status != 201 ==> o.db == db && o.response == Response(501, Message(DeleteFailed))
  {
    if delete.Raises? then
      Outcome(Response(501, Message(DeleteFailed)), db)
    else
      match RecordWithId(db, id)
      case None => Outcome(Response(501, Message(DeleteFailed)), db)
      case Some(rec) =>
        Outcome(Response(201, Deleted(true, CustomerDeleted, rec.customer.name)), DeleteById(db, id))
  }

  /** createUser as it runs: every store call goes through `store`. */
  method CreateUser(store: CustomerStore, body: RequestBody, lookup: StoreCall, save: StoreCall)
    returns (res: Response)
    requires store.Valid()
    modifies store
    ensures store.Valid()
    ensures Outcome(res, store.records) == CreateUserOutcome(old(store.records), old(store.issued), body, lookup, save)
    ensures store.issued == old(store.issued) + (if res.status == 201 then [FreshId(old(store.issued))] else [])
  {
    if !AllFieldsProvided(body) {
      return Response(401, Message(MissingFields));
    }
    if lookup.Raises? {
      return Response(501, Message(CreateFailed));
    }
    var existing := store.FindOne(body.email.value);
    if existing.Some? {
      return Response(401, Message(AlreadyExists));
    }
    var customer := NewCustomer(body);
    if save.Raises? {
      return Response(501, Message(CreateFailed));
    }
    var saved := store.Save(customer);
    res := Response(201, Added(true, CustomerAdded, saved.customer));
  }

  /** customerupdate as it runs against `store`. */
  method CustomerUpdate(store: CustomerStore, id: Id, fields: Customer, update: StoreCall)
    returns (res: Response)
    requires store.Valid()
    modifies store
    ensures store.Valid()
    ensures Outcome(res, store.records) == CustomerUpdateOutcome(old(store.records), id, fields, update)
    ensures store.issued == old(store.issued)
  {
    if update.Raises? {
      return Response(501, Message(UpdateFailed));
    }
    ghost var before := store.records;
    UpdateByIdOverwrites(before, id, fields);
    var customer := store.FindByIdAndUpdate(id, fields);
    match customer
    case None =>
      res := Response(501, Message(UpdateFailed));
    case Some(rec) =>
      res := Response(201, Updated(true, CustomerUpdated, rec.customer));
  }

  /** customerDelete as it runs against `store`. */
  method CustomerDelete(store: CustomerStore, id: Id, delete: StoreCall)
    returns (res: Response)
    requires store.Valid()
    modifies store
    ensures store.Valid()
    ensures Outcome(res, store.records) == CustomerDeleteOutcome(old(store.records), id, delete)
    ensures store.issued == old(store.issued)
  {
    if delete.Raises? {
      return Response(501, Message(DeleteFailed));
    }
    var customer := store.FindByIdAndDelete(id);
    match customer
    case None =>
      res := Response(501, Message(DeleteFailed));
    case Some(rec) =>
      res := Response(201, Deleted(true, CustomerDeleted, rec.customer.name));
  }
}
