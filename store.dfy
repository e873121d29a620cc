/** The module-level `products` array and the route handlers that change or
    read it. The clock value of a create and the stored name of an uploaded
    file are passed in. */
module Server {
  import opened Values
  import opened Decimal
  import opened Catalog

  class ProductStore {
    /** The records in insertion order. */
    var products: seq<Product>

    /** The table a fresh process starts with. */
    constructor ()
      ensures products == []
    {
      products := [];
    }

    /** POST /products: build a record stamped with `now` and append it. */
    method Create(now: nat, form: Form) returns (p: Product)
      modifies this
      ensures p == NewProduct(now, form)
      ensures products == old(products) + [p]
    {
      p := NewProduct(now, form);
      products := products + [p];
    }

    /** PUT /products/:id: merge the form into the first record with that id
        and answer with it, or answer not-found and change nothing. */
    method Update(id: string, form: Form) returns (r: Option<Product>)
      modifies this
      ensures products == UpdateFirst(old(products), id, form)
      ensures r.None? <==> Find(old(products), id).None?
      ensures r == Find(products, id)
    {
      var found := FirstIndex(products, id);
      FindAfterUpdate(products, id, form, id);
      match found
      case None =>
        r := None;
      case Some(i) =>
        var product := products[i];
        product := product.(name := Or(form.name, product.name));
        product := product.(price := Or(form.price, product.price));
        product := product.(description := Or(form.description, product.description));
        if form.upload.Some? {
          product := product.(image := Some(ImagePath(form.upload.value)));
        }
        products := products[i := product];
        r := Some(product);
    }

    /** DELETE /products/:id: keep only the records whose id differs. Always
        succeeds. */
    method Delete(id: string)
      modifies this
      ensures products == RemoveAll(old(products), id)
    {
      products := RemoveAll(products, id);
    }

    /** GET /products: the whole table as it stands. */
    method List() returns (r: seq<Product>)
      ensures r == products
    {
      r := products;
    }

    /** GET /products/:id: the first record with exactly that id. */
    method Get(id: string) returns (r: Option<Product>)
      ensures r.Some? ==> r.value.id == id && r.value in products
      ensures r.Some? <==> FirstIndex(products, id).Some?
      ensures r.Some? ==> r.value == products[FirstIndex(products, id).value]
      ensures r.None? <==> forall j :: 0 <= j < |products| ==> products[j].id != id
      ensures r == Find(products, id)
    {
      r := Find(products, id);
    }
  }

  /** A create, a lookup, a delete and a lookup again on a new table: the new
      record has no image and an all-digit id, the first lookup returns it
      unchanged and the second finds nothing. */
  method CreateGetDeleteGet(now: nat) returns (created: Product, first: Option<Product>, second: Option<Product>)
    ensures created.image.None? && Canonical(created.id)
    ensures created.name == Str("Pen") && created.price == Str("10") && created.description == Str("blue pen")
    ensures first == Some(created)
    ensures second.None?
  {
    var store := new ProductStore();
    created := store.Create(now, Form(Str("Pen"), Str("10"), Str("blue pen"), None));
    first := store.Get(created.id);
    store.Delete(created.id);
    second := store.Get(created.id);
  }
}
