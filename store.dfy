/** The customer collection the handlers of controller.js read and write
    through the `customerModel` (a Mongoose model): an ordered table of
    documents, each under a store-assigned identifier. The model takes
    insertion order as the order in which `find()` and `findOne()` meet the
    documents. */
module Store {
  import opened CustomerModel

  /** The store's identifier of a document, treated as an opaque token. */
  type Id = string

  /** A stored document: its identifier and its three fields. */
  datatype Record = Record(id: Id, customer: Customer)

  predicate HasId(db: seq<Record>, id: Id) {
    exists i :: 0 <= i < |db| && db[i].id == id
  }

  /** The store invariant: no identifier names two documents. */
  predicate DistinctIds(db: seq<Record>) {
    forall i, j :: 0 <= i < j < |db| ==> db[i].id != db[j].id
  }

  predicate EmailTaken(db: seq<Record>, email: string) {
    exists i :: 0 <= i < |db| && db[i].customer.email == email
  }

  /** No email is held by two documents (the uniqueness createUser aims at). */
  predicate DistinctEmails(db: seq<Record>) {
    forall i, j :: 0 <= i < j < |db| ==> db[i].customer.email != db[j].customer.email
  }

  /** Length of the longest identifier issued so far. */
  function MaxIdLength(issued: seq<Id>): (n: nat)
    ensures forall i :: 0 <= i < |issued| ==> |issued[i]| <= n
  {
    if issued == [] then 0
    else
      var rest := MaxIdLength(issued[1..]);
      assert forall i :: 1 <= i < |issued| ==> issued[i] == issued[1..][i - 1];
      if |issued[0]| > rest then |issued[0]| else rest
  }

  /** The identifier the next insert receives: a token longer than every
      identifier issued so far, so it was never handed out before, not even
      to a document deleted since (a stand-in for ObjectId generation). */
  function FreshId(issued: seq<Id>): (id: Id)
    ensures id !in issued
  {
    seq(MaxIdLength(issued) + 1, _ => 'o')
  }

  /** Every stored document's identifier was issued by the store. */
  predicate IdsIssued(db: seq<Record>, issued: seq<Id>) {
    forall i :: 0 <= i < |db| ==> db[i].id in issued
  }

  /** Position of the first document, in store order, with the given email. */
  function IndexOfEmail(db: seq<Record>, email: string): (r: Option<nat>)
    ensures r.Some? <==> EmailTaken(db, email)
    ensures r.Some? ==> r.value < |db| && db[r.value].customer.email == email
    ensures r.Some? ==> forall j :: 0 <= j < r.value ==> db[j].customer.email != email
  {
    if db == [] then None
    else if db[0].customer.email == email then Some(0)
    else
      assert forall i :: 1 <= i < |db| ==> db[i] == db[1..][i - 1];
      match IndexOfEmail(db[1..], email)
      case None => None
      case Some(k) => Some(k + 1)
  }

  /** Position of the document with the given identifier. */
  function IndexOfId(db: seq<Record>, id: Id): (r: Option<nat>)
    ensures r.Some? <==> HasId(db, id)
    ensures r.Some? ==> r.value < |db| && db[r.value].id == id
    ensures r.Some? ==> forall j :: 0 <= j < r.value ==> db[j].id != id
  {
    if db == [] then None
    else if db[0].id == id then Some(0)
    else
      assert forall i :: 1 <= i < |db| ==> db[i] == db[1..][i - 1];
      match IndexOfId(db[1..], id)
      case None => None
      case Some(k) => Some(k + 1)
  }

  /** `findOne({email})`: the first document with that email, or null. */
  function FirstWithEmail(db: seq<Record>, email: string): (r: Option<Record>)
    ensures r.Some? <==> EmailTaken(db, email)
    ensures r.Some? ==>
      exists i :: && 0 <= i < |db| && db[i] == r.value && r.value.customer.email == email
                  && forall j :: 0 <= j < i ==> db[j].customer.email != email
  {
    match IndexOfEmail(db, email)
    case None => None
    case Some(i) => Some(db[i])
  }

  /** The document `findByIdAndUpdate` and `findByIdAndDelete` look up: the
      one with that identifier, or null. */
  function RecordWithId(db: seq<Record>, id: Id): (r: Option<Record>)
    ensures r.Some? <==> HasId(db, id)
    ensures r.Some? ==> r.value.id == id && r.value in db
  {
    match IndexOfId(db, id)
    case None => None
    case Some(i) => Some(db[i])
  }

  /** The table after `findByIdAndUpdate(id, c)`: the document with that
      identifier gets the fields of `c`, everything else stays. */
  function UpdateById(db: seq<Record>, id: Id, c: Customer): (r: seq<Record>)
    ensures |r| == |db|
    ensures forall i :: 0 <= i < |db| ==> r[i].id == db[i].id
    ensures forall i :: 0 <= i < |db| && db[i].id != id ==> r[i] == db[i]
    ensures HasId(db, id) ==> Record(id, c) in r
    ensures !HasId(db, id) ==> r == db
  {
    match IndexOfId(db, id)
    case None => db
    case Some(i) => db[i := Record(id, c)]
  }

  /** The table after `findByIdAndDelete(id)`: the first document with that
      identifier is cut out and the rest keep their order. */
  function DeleteById(db: seq<Record>, id: Id): (r: seq<Record>)
    ensures HasId(db, id) ==>
      exists k :: 0 <= k < |db| && db[k].id == id && r == db[..k] + db[k + 1..]
    ensures !HasId(db, id) ==> r == db
  {
    match IndexOfId(db, id)
    case None => db
    case Some(i) => db[..i] + db[i + 1..]
  }

  /** Under the store invariant an identifier names exactly one position. */
  lemma IndexOfIdExact(db: seq<Record>, k: nat)
    requires DistinctIds(db) && k < |db|
    ensures IndexOfId(db, db[k].id) == Some(k)
  {
    assert HasId(db, db[k].id);
  }

  /** Reading back the updated identifier yields the written document. */
  lemma UpdateByIdReadsBack(db: seq<Record>, id: Id, c: Customer)
    ensures RecordWithId(UpdateById(db, id, c), id) == if HasId(db, id) then Some(Record(id, c)) else None
  {
    match IndexOfId(db, id)
    case None =>
    case Some(k) =>
      var r := UpdateById(db, id, c);
      assert r[k].id == id;
      assert forall i :: 0 <= i < k ==> r[i] == db[i];
  }

  /** Under the store invariant an update keeps identifiers distinct, and the
      one document with the identifier holds `c` and reads back as written. */
  lemma UpdateByIdOverwrites(db: seq<Record>, id: Id, c: Customer)
    requires DistinctIds(db)
    ensures var r := UpdateById(db, id, c);
      && DistinctIds(r)
      && (forall i :: 0 <= i < |db| && db[i].id == id ==> r[i] == Record(id, c))
      && (HasId(db, id) ==> RecordWithId(r, id) == Some(Record(id, c)))
  {
    var r := UpdateById(db, id, c);
    match IndexOfId(db, id)
    case None =>
    case Some(k) =>
      assert DistinctIds(r);
      forall i | 0 <= i < |db| && db[i].id == id
        ensures r[i] == Record(id, c)
      {
        IndexOfIdExact(db, i);
      }
      IndexOfIdExact(r, k);
  }

  /** Under the store invariant a delete removes exactly the named document
      and no other; an unknown id removes nothing. */
  lemma DeleteByIdRemoves(db: seq<Record>, id: Id)
    requires DistinctIds(db)
    ensures var r := DeleteById(db, id);
      && DistinctIds(r)
      && !HasId(r, id)
      && |r| == (if HasId(db, id) then |db| - 1 else |db|)
      && (forall x :: x in r <==> x in db && x.id != id)
  {
    var r := DeleteById(db, id);
    match IndexOfId(db, id)
    case None =>
      assert forall x :: x in db ==> x.id != id;
    case Some(k) =>
      assert forall i :: 0 <= i < k ==> r[i] == db[i];
      assert forall i :: k <= i < |r| ==> r[i] == db[i + 1];
      forall x
        ensures x in r <==> x in db && x.id != id
      {
        if x in db && x.id != id {
          var j :| 0 <= j < |db| && db[j] == x;
          if j < k { assert r[j] == x; } else { assert r[j - 1] == x; }
        }
      }
  }

  /** The collection itself. Every method runs as one atomic step. */
  class CustomerStore {
    var records: seq<Record>
    /** Every identifier handed out so far, in order, including those of
        documents since deleted. */
    var issued: seq<Id>

    ghost predicate Valid()
      reads this
    {
      DistinctIds(records) && IdsIssued(records, issued)
    }

    /** An empty collection. */
    constructor ()
      ensures Valid() && records == [] && issued == []
    {
      records := [];
      issued := [];
    }

    /** `findOne({email})`: scans the table in store order. */
    method FindOne(email: string) returns (found: Option<Record>)
      ensures found == FirstWithEmail(records, email)
      ensures found.Some? <==> EmailTaken(records, email)
    {
      var i := 0;
      while i < |records|
        invariant 0 <= i <= |records|
        invariant forall j :: 0 <= j < i ==> records[j].customer.email != email
      {
        if records[i].customer.email == email {
          return Some(records[i]);
        }
        i := i + 1;
      }
      return None;
    }

    /** Position of the document with identifier `id`, found by a scan. */
    method FindIndex(id: Id) returns (k: Option<nat>)
      ensures k == IndexOfId(records, id)
      ensures k.Some? ==> k.value < |records| && records[k.value].id == id
      ensures k.None? <==> !HasId(records, id)
    {
      var i := 0;
      while i < |records|
        invariant 0 <= i <= |records|
        invariant forall j :: 0 <= j < i ==> records[j].id != id
      {
        if records[i].id == id {
          return Some(i);
        }
        i := i + 1;
      }
      return None;
    }

    /** `new customerModel(c).save()`: appends `c` under an identifier never
        issued before. */
    method Save(c: Customer) returns (saved: Record)
      requires Valid()
      modifies this
      ensures Valid()
      ensures saved == Record(FreshId(old(issued)), c)
      ensures records == old(records) + [saved]
      ensures issued == old(issued) + [saved.id]
    {
      saved := Record(FreshId(issued), c);
      records := records + [saved];
      issued := issued + [saved.id];
    }

    /** `findByIdAndUpdate(id, c, {new: true})`: overwrites the document and
        returns it as it is after the write, or null when the id is unknown. */
    method FindByIdAndUpdate(id: Id, c: Customer) returns (updated: Option<Record>)
      requires Valid()
      modifies this
      ensures Valid()
      ensures records == UpdateById(old(records), id, c) && issued == old(issued)
      ensures updated == (if HasId(old(records), id) then Some(Record(id, c)) else None)
    {
      UpdateByIdOverwrites(records, id, c);
      var k := FindIndex(id);
      match k
      case None =>
        updated := None;
      case Some(i) =>
        records := records[i := Record(id, c)];
        updated := Some(Record(id, c));
    }

    /** `findByIdAndDelete(id)`: removes the document and returns it as it
        was before, or null when the id is unknown. */
    method FindByIdAndDelete(id: Id) returns (deleted: Option<Record>)
      requires Valid()
      modifies this
      ensures Valid()
      ensures records == DeleteById(old(records), id) && issued == old(issued)
      ensures deleted == RecordWithId(old(records), id)
    {
      DeleteByIdRemoves(records, id);
      var k := FindIndex(id);
      match k
      case None =>
        deleted := None;
      case Some(i) =>
        deleted := Some(records[i]);
        records := records[..i] + records[i + 1..];
    }
  }
}
