/** Properties of the handlers that relate several operations or the whole
    table: what a later list shows after a create, update or delete, and
    which operations keep emails unique. */
module HandlerProperties {
  import opened CustomerModel
  import opened Store
  import opened Controller

  /** The entries of a list response that carry the given email. */
  function ListedWithEmail(vs: seq<CustomerView>, email: string): (r: seq<CustomerView>)
    ensures forall v :: v in r <==> v in vs && v.email == email
    ensures |r| <= |vs|
  {
    if vs == [] then []
    else
      var rest := ListedWithEmail(vs[1..], email);
      assert forall v :: v in vs <==> v == vs[0] || v in vs[1..];
      if vs[0].email == email then [vs[0]] + rest else rest
  }

  lemma {:induction false} ListedWithEmailAppend(a: seq<CustomerView>, b: seq<CustomerView>, email: string)
    ensures ListedWithEmail(a + b, email) == ListedWithEmail(a, email) + ListedWithEmail(b, email)
  {
    if a == [] {
      assert a + b == b;
    } else {
      assert (a + b)[1..] == a[1..] + b;
      ListedWithEmailAppend(a[1..], b, email);
    }
  }

  lemma {:induction false} ViewsAppend(a: seq<Record>, b: seq<Record>)
    ensures Views(a + b) == Views(a) + Views(b)
  {
    if a == [] {
      assert a + b == b;
    } else {
      assert (a + b)[1..] == a[1..] + b;
      ViewsAppend(a[1..], b);
    }
  }

  /** A list of a table with no document under `email` shows none. */
  lemma {:induction false} NoneListedWhenUnused(db: seq<Record>, email: string)
    requires !EmailTaken(db, email)
    ensures ListedWithEmail(Views(db), email) == []
  {
    if db != [] {
      assert !EmailTaken(db[1..], email) by {
        forall i | 0 <= i < |db[1..]| ensures db[1..][i].customer.email != email {
          assert db[1..][i] == db[i + 1];
        }
      }
      NoneListedWhenUnused(db[1..], email);
    }
  }

  /** With unique emails, no document other than k holds document k's email. */
  lemma EmailOnlyAt(db: seq<Record>, k: nat)
    requires DistinctEmails(db) && k < |db|
    ensures !EmailTaken(db[..k], db[k].customer.email)
    ensures !EmailTaken(db[k + 1..], db[k].customer.email)
  {
    var before, after := db[..k], db[k + 1..];
    assert forall i :: 0 <= i < |before| ==> before[i] == db[i];
    assert forall i :: 0 <= i < |after| ==> after[i] == db[k + 1 + i];
  }

  /** With unique emails, a list shows exactly the one document holding a
      used email. */
  lemma {:induction false} OneListedWhenTaken(db: seq<Record>, k: nat)
    requires DistinctEmails(db) && k < |db|
    ensures ListedWithEmail(Views(db), db[k].customer.email) == [Views(db)[k]]
  {
    var email := db[k].customer.email;
    var before, after := db[..k], db[k + 1..];
    assert db == before + [db[k]] + after;
    EmailOnlyAt(db, k);
    NoneListedWhenUnused(before, email);
    NoneListedWhenUnused(after, email);
    ViewsAppend(before + [db[k]], after);
    ViewsAppend(before, [db[k]]);
    ListedWithEmailAppend(Views(before) + Views([db[k]]), Views(after), email);
    ListedWithEmailAppend(Views(before), Views([db[k]]), email);
    assert ListedWithEmail(Views([db[k]]), email) == [Views(db)[k]];
  }

  /** A body with a falsy field is refused before the store is consulted:
      the answer does not depend on the table or on how store calls would end. */
  lemma MissingFieldsSkipStore(db: seq<Record>, db': seq<Record>, issued: seq<Id>, issued': seq<Id>,
                               body: RequestBody,
                               lookup: StoreCall, save: StoreCall, lookup': StoreCall, save': StoreCall)
    requires !AllFieldsProvided(body)
    ensures CreateUserOutcome(db, issued, body, lookup, save).response
         == CreateUserOutcome(db', issued', body, lookup', save').response
         == Response(401, Message(MissingFields))
    ensures CreateUserOutcome(db, issued, body, lookup, save).db == db
  {
  }

  /** The guard of createUser answers "Please Provide All the Fields" exactly
      when one of the three fields is absent or holds its type's falsy value
      ("" for name and email, 0 for age). */
  lemma GuardRefusesExactlyFalsy(db: seq<Record>, issued: seq<Id>, name: Option<string>, email: Option<string>,
                                 age: Option<int>, lookup: StoreCall, save: StoreCall)
    ensures var o := CreateUserOutcome(db, issued, RequestBody(name, email, age), lookup, save);
      o.response == Response(401, Message(MissingFields)) <==>
        name in {None, Some("")} || email in {None, Some("")} || age in {None, Some(0)}
  {
  }

  /** A create that succeeds is seen by the next list: one entry more, and
      exactly one entry with the new email, carrying the submitted fields
      under the new document's id. */
  lemma CreateThenList(db: seq<Record>, issued: seq<Id>, body: RequestBody)
    requires AllFieldsProvided(body) && !EmailTaken(db, body.email.value)
    ensures var o := CreateUserOutcome(db, issued, body, Completes, Completes);
      var listing := GetCustomer(o.db, Completes).body;
      && o.response.status == 201
      && listing.count == |db| + 1
      && ListedWithEmail(listing.customers, body.email.value)
         == [CustomerView(FreshId(issued), body.name.value, body.email.value, body.age.value)]
  {
    var o := CreateUserOutcome(db, issued, body, Completes, Completes);
    var c := NewCustomer(body);
    ViewsAppend(db, [Record(FreshId(issued), c)]);
    NoneListedWhenUnused(db, c.email);
    ListedWithEmailAppend(Views(db), Views([Record(FreshId(issued), c)]), c.email);
  }

  /** A create with an email already in a table of unique emails is refused
      and the next list still shows one entry for that email, the original. */
  lemma DuplicateCreateKeepsOriginal(db: seq<Record>, issued: seq<Id>, body: RequestBody, save: StoreCall, k: nat)
    requires DistinctEmails(db) && k < |db|
    requires AllFieldsProvided(body) && body.email.value == db[k].customer.email
    ensures var o := CreateUserOutcome(db, issued, body, Completes, save);
      && o.response == Response(401, Message(AlreadyExists))
      && o.db == db
      && ListedWithEmail(GetCustomer(o.db, Completes).body.customers, body.email.value)
         == [CustomerView(db[k].id, db[k].customer.name, db[k].customer.email, db[k].customer.age)]
  {
    assert EmailTaken(db, body.email.value);
    OneListedWhenTaken(db, k);
  }

  /** createUser keeps emails unique: the one document it may add carries an
      email nobody holds. */
  lemma CreateKeepsEmailsDistinct(db: seq<Record>, issued: seq<Id>, body: RequestBody,
                                  lookup: StoreCall, save: StoreCall)
    requires DistinctEmails(db)
    ensures DistinctEmails(CreateUserOutcome(db, issued, body, lookup, save).db)
  {
    var o := CreateUserOutcome(db, issued, body, lookup, save);
    if o.response.status == 201 {
      var n := |db|;
      assert forall i :: 0 <= i < n ==> o.db[i] == db[i];
      assert o.db[n].customer.email == body.email.value;
    }
  }

  /** customerDelete keeps emails unique. */
  lemma DeleteKeepsEmailsDistinct(db: seq<Record>, id: Id, delete: StoreCall)
    requires DistinctEmails(db)
    ensures DistinctEmails(CustomerDeleteOutcome(db, id, delete).db)
  {
    var o := CustomerDeleteOutcome(db, id, delete);
    match IndexOfId(db, id)
    case None =>
    case Some(k) =>
      if o.response.status == 201 {
        forall i, j | 0 <= i < j < |o.db|
          ensures o.db[i].customer.email != o.db[j].customer.email
        {
          var i', j' := if i < k then i else i + 1, if j < k then j else j + 1;
          assert o.db[i] == db[i'] && o.db[j] == db[j'];
        }
      }
  }

  /** customerupdate does not check emails: two documents with distinct
      emails, and an update that gives the second the first one's email,
      succeeds and leaves the email held twice. */
  lemma UpdateCanDuplicateEmail()
    ensures var db := [Record("a", Customer("Ann", "ann@example.com", 30)),
                       Record("b", Customer("Bob", "bob@example.com", 40))];
      var o := CustomerUpdateOutcome(db, "b", Customer("Bob", "ann@example.com", 40), Completes);
      && DistinctEmails(db)
      && o.response.status == 201
      && !DistinctEmails(o.db)
  {
    var db := [Record("a", Customer("Ann", "ann@example.com", 30)),
               Record("b", Customer("Bob", "bob@example.com", 40))];
    assert db[1].id == "b";
    IndexOfIdExact(db, 1);
  }

  /** After an update that succeeds, the next list shows the new fields under
      the same id at the same position, and every other entry as before. */
  lemma UpdateThenList(db: seq<Record>, id: Id, fields: Customer)
    requires DistinctIds(db) && HasId(db, id)
    ensures var o := CustomerUpdateOutcome(db, id, fields, Completes);
      var listing := GetCustomer(o.db, Completes).body;
      && o.response == Response(201, Updated(true, CustomerUpdated, fields))
      && listing.count == |db|
      && (forall i :: 0 <= i < |db| ==> listing.customers[i].id == db[i].id)
      && (forall i :: 0 <= i < |db| && db[i].id == id ==>
            listing.customers[i] == CustomerView(id, fields.name, fields.email, fields.age))
      && (forall i :: 0 <= i < |db| && db[i].id != id ==> listing.customers[i] == Views(db)[i])
  {
    UpdateByIdOverwrites(db, id, fields);
    var k := IndexOfId(db, id).value;
    forall i | 0 <= i < |db| && db[i].id == id
      ensures i == k
    {
      IndexOfIdExact(db, i);
    }
  }

  /** After a delete that succeeds, the answer names the removed document,
      the next list has one entry fewer, and the id is gone while every other
      document is still there, in its old order. */
  lemma DeleteThenList(db: seq<Record>, k: nat)
    requires DistinctIds(db) && k < |db|
    ensures var o := CustomerDeleteOutcome(db, db[k].id, Completes);
      && o.response == Response(201, Deleted(true, CustomerDeleted, db[k].customer.name))
      && GetCustomer(o.db, Completes).body.count == |db| - 1
      && !HasId(o.db, db[k].id)
      && (forall x :: x in o.db <==> x in db && x.id != db[k].id)
      && o.db == db[..k] + db[k + 1..]
  {
    IndexOfIdExact(db, k);
    DeleteByIdRemoves(db, db[k].id);
  }

  /** An identifier, once its document is deleted, never names a document
      again: the next create hands out an identifier never issued, so the
      old one stays unknown and an update addressed to it answers 501. */
  lemma {:induction false} DeletedIdStaysUnknown(db: seq<Record>, issued: seq<Id>, k: nat, body: RequestBody,
                                                 lookup: StoreCall, save: StoreCall, fields: Customer)
    requires DistinctIds(db) && IdsIssued(db, issued) && k < |db|
    ensures var gone := CustomerDeleteOutcome(db, db[k].id, Completes).db;
      var o := CreateUserOutcome(gone, issued, body, lookup, save);
      && !HasId(o.db, db[k].id)
      && CustomerUpdateOutcome(o.db, db[k].id, fields, Completes).response == Response(501, Message(UpdateFailed))
  {
    var id := db[k].id;
    DeleteThenList(db, k);
    var gone := CustomerDeleteOutcome(db, id, Completes).db;
    var o := CreateUserOutcome(gone, issued, body, lookup, save);
    assert id in issued;
    if o.response.status == 201 {
      assert FreshId(issued) != id;
      forall i | 0 <= i < |o.db| ensures o.db[i].id != id {
        if i < |gone| {
          assert o.db[i] == gone[i];
        }
      }
    }
  }

  /** A create, a second create with the same email, then a list, from an
      empty collection. */
  lemma CreateDuplicateListScenario()
    ensures var john := RequestBody(Some("John Doe"), Some("john@example.com"), Some(25));
      var jane := RequestBody(Some("Jane Doe"), Some("john@example.com"), Some(30));
      var first := CreateUserOutcome([], [], john, Completes, Completes);
      var second := CreateUserOutcome(first.db, [FreshId([])], jane, Completes, Completes);
      var listing := GetCustomer(second.db, Completes);
      && first.response == Response(201, Added(true, CustomerAdded, Customer("John Doe", "john@example.com", 25)))
      && second.response == Response(401, Message(AlreadyExists))
      && listing.status == 201
      && listing.body.count == 1
      && listing.body.customers[0].name == "John Doe"
  {
    var john := RequestBody(Some("John Doe"), Some("john@example.com"), Some(25));
    var first := CreateUserOutcome([], [], john, Completes, Completes);
    assert first.db[0].customer.email == "john@example.com";
  }
}
