# Customer CRUD service — Dafny model

This project models the request-handling core of a small Express/Mongoose
service that keeps customer records (`name`, `email`, `age`):

- the four handlers of `controller.js`: createUser, getCustomer,
  customerupdate and customerDelete;
- the route table of `routes.js`, with its `/cus` mount point and the
  health route of `index.js`.

Modules:

- `CustomerModel` (`customer_model.dfy`) holds the document shape of
  `customerModel.js` and an `Option` type.
- `Store` (`store.dfy`) models the Mongoose collection as the class
  `CustomerStore`. The class holds `records`, a sequence of (id, customer)
  documents in insertion order, and `issued`, the log of ids handed out.
  The model takes insertion order as the order in which `find()` and
  `findOne()` meet the documents. The invariant is that ids are distinct
  and were all issued by the store. The store calls the handlers make are
  methods of the class: `FindOne`, `Save`, `FindByIdAndUpdate` and
  `FindByIdAndDelete`. Each is specified by a pure function of the table
  and the log.
- `Controller` (`controller.dfy`) holds the responses and the handlers.
  - A response is a status code and one of the handlers' JSON bodies, with
    the source's fixed messages.
  - Each state-changing handler is a method over a `CustomerStore`. Its
    ensures ties the response and the new table to a pure outcome function:
    `CreateUserOutcome`, `CustomerUpdateOutcome` or `CustomerDeleteOutcome`.
    The contracts of those functions state what each handler promises.
  - getCustomer only reads the table, so it is the function `GetCustomer`.
- `HandlerProperties` (`handler_properties.dfy`) holds properties that
  involve more than one operation. Examples: what a list shows after a
  create, update or delete, and which handlers keep emails unique.
- `Routes` (`routes.dfy`) holds the router as a four-entry table. `Dispatch`
  picks the first matching entry. `Serve` adds the app-level health route
  and the `/cus` prefix.

Request-body fields are `Option` values. JavaScript falsiness is explicit:
a string field is falsy when absent or `""`, a number field when absent or
`0`. The predicates `Controller.TruthyString`, `Controller.TruthyNumber` and
`Controller.AllFieldsProvided` define this; the row of
`HandlerProperties.GuardRefusesExactlyFalsy` states what the guard built from
them does.

Each handler takes one `StoreCall` parameter, `Completes` or `Raises`, for
every store call it makes (createUser two: the lookup and the save). It stands
for the outcome the real database decides; the store methods themselves
always complete. A raising
call changes nothing, and the handler's catch-all answers 501 with its own
message.

For update and delete, an unknown id makes the store return null. Reading
a field of that null throws, so the same 501 answer follows. The model
states this as "not found ⇒ 501, table unchanged".

Only createUser checks that an email is unused (controller.js:12-17).
customerupdate writes any email (controller.js:68-79), and
`UpdateCanDuplicateEmail` shows an update that leaves one email on two
documents.

The store also keeps `issued`, the log of every identifier it has handed
out, including those of documents deleted since. A new document's
identifier is never in that log, so a deleted document's identifier is
never given to another document.

## Model

| member | source | states |
|---|---|---|
| `Store.FreshId` | controller.js:18-24 | the id a saved document receives was never issued before, so it names no stored document and no deleted one |
| `Store.FirstWithEmail` | controller.js:12 | `findOne({email})` yields a document exactly when the email is taken, and then the first document in store order that holds it |
| `Store.IndexOfEmail` | controller.js:12 | the email lookup finds a document exactly when the email is taken; it finds the first such document in store order |
| `Store.IndexOfId` | controller.js:68-79 | the id lookup finds a position exactly when the id is stored; that position holds the id and no earlier one does |
| `Store.UpdateByIdReadsBack` | controller.js:68-79 | `findByIdAndUpdate` with `new: true` returns the document as written when the id exists, and null otherwise |
| `Store.UpdateByIdOverwrites` | controller.js:68-79 | under distinct ids, an update keeps ids distinct, the document with the id holds exactly the new fields, and reading the id back yields that document |
| `Store.DeleteByIdRemoves` | controller.js:101 | under distinct ids, a delete leaves the id absent, keeps every other document, keeps ids distinct, and shrinks the table by one (by none for an unknown id) |
| `Store.RecordWithId` | controller.js:101 | the document `findByIdAndUpdate` and `findByIdAndDelete` look up exists exactly when the id is stored, carries that id and is one of the stored documents |
| `Store.UpdateById` | controller.js:68-79 | the update by id keeps the length and every id in place, leaves every document with another id as it was, stores the new fields under the id when it exists, and changes nothing for an unknown id |
| `Store.DeleteById` | controller.js:101 | the delete by id cuts out a document holding the id, keeping the others in order, and changes nothing for an unknown id |
| `Store.CustomerStore.FindOne` | controller.js:12 | scanning the collection returns the first document with the email, or none exactly when no document has it |
| `Store.CustomerStore.FindIndex` | controller.js:101 | scanning the collection finds the position of the id, or none exactly when the id is not stored |
| `Store.CustomerStore.Save` | controller.js:24 | saving appends exactly one document with the given fields under an id never issued before, logs that id, and keeps ids distinct and issued |
| `Store.CustomerStore.FindByIdAndUpdate` | controller.js:68-79 | the collection becomes the updated table; the post-update document is returned when the id exists, null otherwise |
| `Store.CustomerStore.FindByIdAndDelete` | controller.js:101 | the collection becomes the table without the id; the pre-deletion document is returned, or null |
| `Controller.NewCustomer` | controller.js:18-22 | the new document carries the submitted name, email and age, with both strings non-empty and the age non-zero |
| `Controller.CreateUserOutcome` | controller.js:4-40 | 201 iff all fields are truthy, the lookup and the save complete and the email is unused. On 201: exactly one document is appended under an id never issued (so no stored document holds it), and the body echoes name, email and age without the id. Otherwise the table is unchanged, with 401 "Please Provide All the Fields", 401 "You Already Exist Edit your details" or 501 "Could Not create a user" in the stated cases |
| `Controller.Views` | controller.js:49-54 | the `.map` projection has one `{id, name, email, age}` entry per document, in store order |
| `Controller.GetCustomer` | controller.js:42-62 | on a fault: 501 "Get User Could not be fullfilled". Otherwise: 201, `success`, "Customer are this", a `count` equal to the number of documents and to the length of `customers`, and entry i carries document i's id and fields |
| `Controller.CustomerUpdateOutcome` | controller.js:63-97 | 201 iff the update completes and the id exists. On 201: the table is the update by id and `details` equals the supplied fields. Otherwise: 501 "Could not Update" and the table unchanged |
| `Controller.CustomerDeleteOutcome` | controller.js:98-115 | 201 iff the delete completes and the id exists. On 201: the document is removed and `deleted.name` is its pre-deletion name. Otherwise: 501 "Could not delete" and the table unchanged |
| `Controller.CreateUser` | controller.js:4-40 | the handler run against the collection gives the response and new table of `CreateUserOutcome`, logs the new id only on 201, and keeps ids distinct |
| `Controller.CustomerUpdate` | controller.js:63-97 | the handler run against the collection gives the response and new table of `CustomerUpdateOutcome`, issues no id, and keeps ids distinct |
| `Controller.CustomerDelete` | controller.js:98-115 | the handler run against the collection gives the response and new table of `CustomerDeleteOutcome`, issues no id, and keeps ids distinct |
| `HandlerProperties.GuardRefusesExactlyFalsy` | controller.js:7 | createUser answers 401 "Please Provide All the Fields" exactly when name or email is absent or `""`, or age is absent or `0` |
| `HandlerProperties.MissingFieldsSkipStore` | controller.js:6-11 | a body with a falsy field gets 401 "Please Provide All the Fields" whatever the table and store calls would be, and the table is unchanged |
| `HandlerProperties.CreateThenList` | controller.js:18-54 | after a successful create, the next list has one more entry and exactly one entry with the new email, carrying the submitted fields under the new id |
| `HandlerProperties.DuplicateCreateKeepsOriginal` | controller.js:12-17 | with unique emails, a create that reuses an email gets 401 and leaves the table unchanged; the next list still has exactly one entry for that email, the original |
| `HandlerProperties.CreateKeepsEmailsDistinct` | controller.js:12-24 | if emails are pairwise distinct before createUser, they still are after it |
| `HandlerProperties.DeleteKeepsEmailsDistinct` | controller.js:101 | customerDelete keeps pairwise distinct emails distinct |
| `HandlerProperties.UpdateCanDuplicateEmail` | controller.js:68-79 | customerupdate does no uniqueness check: an update that succeeds can leave one email on two documents |
| `HandlerProperties.UpdateThenList` | controller.js:68-88 | after a successful update, the response carries the new fields and the next list shows them under the same id at the same position; every other entry is unchanged |
| `HandlerProperties.DeleteThenList` | controller.js:101-108 | after a successful delete, the response names the removed document and the next list has one entry fewer; the id is gone and every other document remains, in its old order |
| `HandlerProperties.DeletedIdStaysUnknown` | controller.js:18-24 | once a document is deleted, a following create never reuses its id, and an update addressed to that id answers 501 "Could not Update" |
| `HandlerProperties.CreateDuplicateListScenario` | controller.js:4-55 | from an empty collection, a create answers 201, a second create with the same email answers 401, and a list then has count 1 and shows the first customer |
| `Routes.Bind` | routes.js:6-9 | for the table's patterns, a matching path binds one value per `:id` segment: nothing for an all-literal pattern, the whole path for an all-parameter pattern |
| `Routes.Dispatch` | routes.js:6-9 | the router takes the first registration whose method and pattern match, with the values bound to its parameters; it yields not-found exactly when none matches |
| `Routes.Route` | routes.js:6-9 | `POST /create` reaches createUser, `GET /` getCustomer, `PATCH /:id` customerupdate and `DELETE /:id` customerDelete with `id` bound to the segment, which must be non-empty; no other request reaches a handler (so `GET /:id` is 404) |
| `Routes.Serve` | index.js:13-19 | `GET /` alone is the health route; a request reaches a handler only under `/cus`, through the router with the prefix removed |
| `Routes.HealthAnswer` | index.js:13-17 | the app answers 200 "ALL GOOD!!!!" itself exactly on `GET /`, and leaves every other request to the router or the 404 page |
| `Routes.ServeMountsUnderCus` | index.js:13-19 | every route sits under `/cus`; `GET /` is the health route; `POST /create` without the prefix and `GET /cus/:id` are 404 |

## Left out

- Process bootstrap is not modelled: `Db.js`, `dotenv`, `app.listen` and the log lines of `index.js`. The health route's answer is `Routes.HealthAnswer`.
- Store order: MongoDB returns documents in natural order, which it does not promise to be insertion order, and `find()` and `findOne()` are called without a sort. The position claims of `Controller.Views`, `Controller.GetCustomer`, `Store.FirstWithEmail`, `HandlerProperties.UpdateThenList` and `HandlerProperties.DeleteThenList` hold of the model's order, insertion order.
- Concurrency is not modelled. Handlers run one at a time and each store call is atomic, so the race between `findOne` and `save` under concurrent creates is not captured.
- The async/await structure is not modelled; a rejected promise is the `Raises` outcome of the call.
- Store faults are decided by the caller through `StoreCall`. A raising call is assumed to change nothing.
- Controller.CustomerUpdate: takes all three values as a `Customer`. What Mongoose does with absent or `undefined` update fields is not modelled. Neither is `runValidators` rejecting a value; such a rejection is one of the ways the `Raises` outcome arises.
- Mongoose casting is not modelled. Body fields are strings and an integer `age`, so a numeric string, a fractional or NaN age, `false` and other JSON values are left out. ObjectId format is not modelled either: ids are opaque strings, so a malformed id behaves like an unknown id (both get 501).
- Store.FreshId: a deterministic stand-in for ObjectId generation. It promises that the id was never issued before (checked against the store's log of issued ids), not the 24-hex-digit format, the embedded timestamp or the counter order of real ObjectIds.
- Express internals are not modelled: JSON body parsing (malformed JSON), case-insensitive and trailing-slash path matching, URL decoding, `HEAD` and `OPTIONS` handling, and the body of Express's default 404 page. A path is given as its list of segments.
- Email format is not validated, because the source does not validate it.
