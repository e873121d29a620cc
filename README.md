# Product catalog service: the in-memory product table

This project models the product table of a small Express service
(`server.js`). The service keeps a module-level array `products` of records
`{id, name, price, description, image}` and changes it from four route
handlers:

- **create** (`POST /products`) builds a record whose id is the decimal
  rendering of the current millisecond clock, copies `name`, `price` and
  `description` from the body, sets `image` to `/uploads/<stored name>` when a
  file was uploaded and to `null` otherwise, and appends it;
- **update** (`PUT /products/:id`) finds the first record with that id and
  overwrites each of the three text fields with the incoming value only when
  that value is truthy (JavaScript `||`), and `image` only when a file was
  uploaded; an unknown id answers not-found;
- **delete** (`DELETE /products/:id`) filters out every record with that id
  and always succeeds;
- **list** and **get** (`GET /products`, `GET /products/:id`) return the
  whole array and the first record with exactly that id (or not-found).

Layout:

- `values.dfy` (module `Values`): `Option`, the request-body value `Field`
  (undefined, null, boolean, number, string), JavaScript truthiness and `||`.
- `decimal.dfy` (module `Decimal`): `Date.now().toString()` as `ToDecimal`,
  its inverse `ParseDecimal`, and the round trips that make ids injective in
  the clock value.
- `catalog.dfy` (module `Catalog`): the `Product` record, the `Form` a request
  supplies, the record a create builds, the update merge, find-first lookup,
  remove-all deletion, and the lemmas relating them (frames, shadowing of
  duplicate ids, idempotence, order preservation, id uniqueness under a clock
  that moves forward).
- `store.dfy` (module `Server`): class `ProductStore` holding the table as a
  `seq<Product>` field; `Create`, `Update` and `Delete` change it in place,
  `List` and `Get` only read it. `CreateGetDeleteGet` is a client that runs
  create, get, delete, get on a new table.

The clock value of a create and the stored name of an uploaded file are
parameters (`now`, `Form.upload`): in the service they come from `Date.now()`
and from the upload middleware.

## Model

| member | source | states |
|---|---|---|
| Values.Truthy | server.js:52-54 | a body value is falsy exactly when it is undefined, null, false, 0 or the empty string |
| Values.Or | server.js:52-54 | JavaScript short-circuit or yields `a` when `a` is truthy and `b` otherwise; the result is truthy exactly when either operand is |
| Decimal.ToDecimal | server.js:34 | the id rendering of a clock value is a non-empty digit string with no leading zero, starting with '0' only for zero |
| Decimal.ParseToDecimal | server.js:34 | parsing the rendered id gives back the clock value |
| Decimal.ToDecimalOfParse | server.js:34 | every canonical digit string is the rendering of the number it denotes |
| Decimal.ToDecimalInjective | server.js:34 | two clock values give the same id exactly when they are equal |
| Catalog.ImagePath | server.js:38 | an image path is `/uploads/` followed by exactly the stored file name |
| Catalog.ImageOf | server.js:38 | a new record's image is null exactly when no file was uploaded, and otherwise `/uploads/` plus the stored name |
| Catalog.NewProduct | server.js:32-39 | a created record's id is a canonical digit string denoting the clock value; name, price and description are the incoming values unchanged; image is null iff no upload, else the upload path |
| Catalog.Merge | server.js:52-55 | an update keeps the id; each text field becomes the incoming value when it is truthy and keeps the old value otherwise; image changes only with an upload, else the old image (null included) is kept |
| Catalog.FirstIndex | server.js:49 | the position found holds the id and no earlier record does; not-found exactly when no record holds the id |
| Catalog.Find | server.js:74-75 | lookup returns a record of the table with exactly that id that no earlier record shares (the first match), and not-found exactly when none has it |
| Catalog.UpdateFirst | server.js:49-55 | the table after an update has the same length, the first record holding the id is replaced by its merge with the form, and every other position is unchanged |
| Catalog.RemoveAll | server.js:63 | after a delete no record has the id, every survivor was in the table, and the table does not grow |
| Catalog.FirstIndexIs | server.js:49 | the first-match position is the unique index holding the id with no earlier match |
| Catalog.FirstIndexSameIds | server.js:49 | lookup depends only on the ids in order, not on the other fields |
| Catalog.LaterDuplicateShadowed | server.js:49 | when two records share an id, lookup and update reach the earlier one, never the later |
| Catalog.FindAfterCreate | server.js:31-42 | after a create, get of the new id returns the new record, unless an older record holds the same id and shadows it |
| Catalog.FindOtherAfterCreate | server.js:31-42 | a create does not change what get returns for any other id |
| Catalog.CreateKeepsIdsDistinct | server.js:34 | if existing ids were issued before the clock value and are distinct, they stay distinct after a create |
| Catalog.UpdateFrame | server.js:49-55 | an update keeps the length and every id, changes no record except the first match (later duplicates included), and changes nothing for an unknown id |
| Catalog.FindAfterUpdate | server.js:49-57 | get after an update returns the merged record, or not-found for an unknown id; other ids are unaffected |
| Catalog.MergeIdempotent | server.js:52-55 | repeating the same update changes nothing further |
| Catalog.MergeEmptyIsIdentity | server.js:52-55 | an update with only falsy fields and no file leaves the record as it was |
| Catalog.MergeNeverClears | server.js:52-55 | an update never makes a truthy field falsy and never resets a set image to null |
| Catalog.UpdateKeepsIdsDistinct | server.js:49-55 | updates keep ids distinct and issued before the clock |
| Catalog.RemoveAllKeepsOthers | server.js:63 | every record with a different id survives a delete |
| Catalog.RemoveAllConcat | server.js:63 | delete works piecewise on any split of the table, so survivors keep their relative order |
| Catalog.RemoveAllMissing | server.js:61-64 | deleting an id no record has leaves the table unchanged |
| Catalog.RemoveAllIdempotent | server.js:61-64 | deleting the same id twice equals deleting it once |
| Catalog.FindAfterRemoveAll | server.js:61-65 | after a delete, get of that id is not-found and every other id finds what it found before |
| Catalog.RemoveAllDistinct | server.js:49-63 | with distinct ids, delete removes exactly the record lookup finds and nothing else |
| Catalog.RemoveAllKeepsIdsDistinct | server.js:63 | deletes keep ids distinct and issued before the clock |
| Server.ProductStore.constructor | server.js:27 | the table starts empty |
| Server.ProductStore.Create | server.js:31-42 | returns the new record and appends exactly it at the end; earlier records are unchanged |
| Server.ProductStore.Update | server.js:45-58 | the table becomes the first-match merge; the answer is not-found exactly when no record had the id, and otherwise the record now stored under it |
| Server.ProductStore.Delete | server.js:61-65 | the table becomes the old table with every record of that id filtered out |
| Server.ProductStore.List | server.js:68-70 | returns the current table unchanged |
| Server.ProductStore.Get | server.js:73-77 | returns the record at the first position holding exactly that id, or not-found when no record holds it |
| Server.CreateGetDeleteGet | server.js:31-77 | create of a record without a file gives a null image and a digit-string id; get returns that record; after delete, get is not-found |

## Left out

- HTTP routing, status codes and JSON response shapes (`{message, product}`, 404 `{message}`): the model returns the record or a not-found `Option` instead.
- The upload middleware: disk storage, creation of the uploads directory, file naming from the clock and the original extension, and static serving of `/uploads`; the stored file name is a parameter, and files orphaned by updates and deletes are not tracked.
- `Date.now()`: the clock value is a parameter. Two creates in the same millisecond give equal ids; `CreateKeepsIdsDistinct` shows uniqueness only under a clock that moves forward, which the service does not enforce.
- Decimal.ToDecimal: renders every natural number in plain digits; JavaScript switches to exponent notation from 10^21 on, far beyond any millisecond clock.
- Values.Field: numbers are reals, so NaN and -0 are not modelled; JSON objects and arrays in the body (always truthy) are not modelled.
- Undefined fields are stored as `Undefined`; that JSON serialisation drops such keys from the response is not modelled.
- The record found by an update is mutated in place in the service; the model replaces the element at that position, which is the same since no other reference to the record outlives a request.
- Concurrent requests interleaving on the shared table, and the server start-up (`app.listen`).
